/** The editor bookkeeping of the `XMLCooktop` class in renderer/js/app.js:
    the `editors` Map from path to editor entry (in insertion order), the
    `unsavedChanges` Set of paths, and the active editor and path. Monaco
    editors are known only by identity; the DOM work done alongside (tabs,
    status bar, welcome screen) is not part of this model. */
module EditorRegistry {
  import opened Wrappers
  import opened Text

  /** A Monaco editor instance. */
  type EditorId = nat

  /** The Monaco languages the application asks for. */
  datatype Language = Xml | Xsl

  /** What `editors` stores per path; the DOM element is left out. */
  datatype EditorData = EditorData(editor: EditorId, fileName: string, language: Language, originalContent: string)

  /** A JavaScript `Map` with string keys: its entries in insertion order. */
  type Entries<V> = seq<(string, V)>

  function Keys<V>(m: Entries<V>): (keys: seq<string>)
    ensures |keys| == |m|
    ensures forall i :: 0 <= i < |m| ==> keys[i] == m[i].0
  {
    if m == [] then [] else [m[0].0] + Keys(m[1..])
  }

  lemma KeysCons<V>(e: (string, V), m: Entries<V>)
    ensures Keys([e] + m) == [e.0] + Keys(m)
  {
    assert ([e] + m)[1..] == m;
  }

  /** No key occurs twice. */
  predicate DistinctKeys<V>(m: Entries<V>) {
    m == [] || (m[0].0 !in Keys(m[1..]) && DistinctKeys(m[1..]))
  }

  /** `map.get(k)`. */
  function Get<V>(m: Entries<V>, k: string): (v: Option<V>)
    ensures v.None? <==> k !in Keys(m)
    ensures v.Some? ==> (k, v.value) in m
  {
    if m == [] then None else if m[0].0 == k then Some(m[0].1) else Get(m[1..], k)
  }

  /** In a map without repeated keys a key has one value. */
  lemma {:induction false} GetUnique<V>(m: Entries<V>, k: string, v: V)
    requires DistinctKeys(m) && (k, v) in m
    ensures Get(m, k) == Some(v)
  {
    if m[0] != (k, v) {
      var j :| 0 <= j < |m| && m[j] == (k, v);
      assert m[1..][j - 1] == m[j];
      assert k in Keys(m[1..]) by {
        assert Keys(m[1..])[j - 1] == k;
      }
      GetUnique(m[1..], k, v);
    }
  }

  /** `map.set(k, v)`: a key already present keeps its place and gets the new
      value; a new key goes last. */
  function Put<V>(m: Entries<V>, k: string, v: V): (r: Entries<V>)
    ensures Get(r, k) == Some(v)
    ensures forall k' :: k' != k ==> Get(r, k') == Get(m, k')
  {
    if m == [] then [(k, v)]
    else if m[0].0 == k then [(k, v)] + m[1..]
    else [m[0]] + Put(m[1..], k, v)
  }

  /** `map.set` keeps the order of the keys: a key already present keeps
      its place, and a new key goes last. */
  lemma {:induction false} PutKeys<V>(m: Entries<V>, k: string, v: V)
    ensures Keys(Put(m, k, v)) == if k in Keys(m) then Keys(m) else Keys(m) + [k]
  {
    if m != [] {
      var head, tail := m[0], m[1..];
      assert m == [head] + tail;
      if head.0 != k {
        PutKeys(tail, k, v);
      }
      PutKeysStep(head, tail, k, v);
    }
  }

  /** The step of `PutKeys` for a map with a first entry `head`. */
  lemma PutKeysStep<V>(head: (string, V), tail: Entries<V>, k: string, v: V)
    requires head.0 != k ==>
      Keys(Put(tail, k, v)) == if k in Keys(tail) then Keys(tail) else Keys(tail) + [k]
    ensures Keys(Put([head] + tail, k, v))
         == if k in Keys([head] + tail) then Keys([head] + tail) else Keys([head] + tail) + [k]
  {
    var m := [head] + tail;
    assert m[0] == head && m[1..] == tail;
    KeysCons(head, tail);
    if head.0 == k {
      assert Put(m, k, v) == [(k, v)] + tail;
      KeysCons((k, v), tail);
    } else {
      var t := Put(tail, k, v);
      assert Put(m, k, v) == [head] + t;
      KeysCons(head, t);
      assert k in Keys(m) <==> k in Keys(tail);
      AppendAssoc([head.0], Keys(tail), [k]);
    }
  }

  /** Helper: regrouping a concatenation of key lists. */
  lemma AppendAssoc(a: seq<string>, b: seq<string>, c: seq<string>)
    ensures a + (b + c) == a + b + c
  {
  }

  /** `map.set` keeps the keys distinct. */
  lemma {:induction false} PutDistinct<V>(m: Entries<V>, k: string, v: V)
    requires DistinctKeys(m)
    ensures DistinctKeys(Put(m, k, v))
  {
    var r := Put(m, k, v);
    if m == [] {
    } else if m[0].0 == k {
      assert r[1..] == m[1..];
    } else {
      PutDistinct(m[1..], k, v);
      PutKeys(m[1..], k, v);
      assert r[1..] == Put(m[1..], k, v);
    }
  }

  /** The keys other than `k`, in their order. */
  function Without(keys: seq<string>, k: string): (r: seq<string>)
    ensures forall k' :: k' in r <==> k' in keys && k' != k
  {
    if keys == [] then [] else (if keys[0] == k then [] else [keys[0]]) + Without(keys[1..], k)
  }

  lemma {:induction false} WithoutAppend(a: seq<string>, b: seq<string>, k: string)
    ensures Without(a + b, k) == Without(a, k) + Without(b, k)
  {
    if a == [] {
      assert a + b == b;
    } else {
      assert (a + b)[1..] == a[1..] + b;
      WithoutAppend(a[1..], b, k);
    }
  }

  /** `map.delete(k)`: the other entries keep their values and their order. */
  function Remove<V>(m: Entries<V>, k: string): (r: Entries<V>)
    ensures Keys(r) == Without(Keys(m), k)
    ensures forall k' :: k' in Keys(r) <==> k' in Keys(m) && k' != k
    ensures Get(r, k) == None
    ensures forall k' :: k' != k ==> Get(r, k') == Get(m, k')
    ensures DistinctKeys(m) ==> DistinctKeys(r)
  {
    if m == [] then []
    else if m[0].0 == k then Remove(m[1..], k)
    else
      var rest := Remove(m[1..], k);
      var r := [m[0]] + rest;
      assert r[1..] == rest;
      r
  }

  /** Deleting a key that is absent changes nothing. */
  lemma {:induction false} RemoveAbsent<V>(m: Entries<V>, k: string)
    requires k !in Keys(m)
    ensures Remove(m, k) == m
  {
    if m != [] {
      RemoveAbsent(m[1..], k);
    }
  }

  /** With distinct keys, deleting a present key removes exactly one entry. */
  lemma {:induction false} RemoveLength<V>(m: Entries<V>, k: string)
    requires DistinctKeys(m) && k in Keys(m)
    ensures |Remove(m, k)| == |m| - 1
  {
    if m[0].0 == k {
      RemoveAbsent(m[1..], k);
    } else {
      RemoveLength(m[1..], k);
    }
  }

  /** After a delete the first entry is the first one, in insertion order,
      whose key was not deleted. */
  lemma {:induction false} RemoveFirst<V>(m: Entries<V>, k: string, j: int)
    requires 0 <= j < |m| && m[j].0 != k
    requires forall i :: 0 <= i < j ==> m[i].0 == k
    ensures Remove(m, k) != [] && Remove(m, k)[0] == m[j]
  {
    if j > 0 {
      RemoveFirst(m[1..], k, j - 1);
    }
  }

  /** Key order after `set(to, v)` and then `delete(from)`: the old keys
      other than `from` in their order, then `to` when it is new. */
  lemma {:induction false} MoveKeys<V>(m: Entries<V>, from: string, to: string, v: V)
    requires from in Keys(m)
    ensures Keys(Remove(Put(m, to, v), from)) == Without(Keys(m), from) + (if to in Keys(m) then [] else [to])
  {
    PutKeys(m, to, v);
    WithoutAdded(Keys(m), from, to);
  }

  /** Adding a key other than `from` at the end and then dropping `from`
      is dropping `from` first and adding the key after. */
  lemma WithoutAdded(keys: seq<string>, from: string, to: string)
    requires from in keys
    ensures Without(if to in keys then keys else keys + [to], from)
         == Without(keys, from) + (if to in keys then [] else [to])
  {
    if to !in keys {
      WithoutAppend(keys, [to], from);
      assert Without([to], from) == [to] + Without([], from);
    }
  }

  /** The move done by a successful "save as": `set(to, get(from))` and then
      `delete(from)`. Saving under the same path loses the entry. */
  function MoveEntry<V>(m: Entries<V>, from: string, to: string): (r: Entries<V>)
    requires from in Keys(m)
    ensures from != to ==> Get(r, to) == Get(m, from) && Get(r, from) == None
    ensures Keys(r) == Without(Keys(m), from) + (if to in Keys(m) then [] else [to])
    ensures from == to ==> to !in Keys(r)
    ensures forall k :: k != from && k != to ==> Get(r, k) == Get(m, k)
    ensures DistinctKeys(m) ==> DistinctKeys(r)
  {
    var v := Get(m, from).value;
    MoveKeys(m, from, to, v);
    if DistinctKeys(m) then PutDistinct(m, to, v); Remove(Put(m, to, v), from)
    else Remove(Put(m, to, v), from)
  }

  /** `getLanguageFromExtension` (renderer/js/app.js:705-716). */
  function LanguageFromExtension(fileName: string): Language {
    var ext := ToLower(AfterLast(fileName, {'.'}));
    if ext == "xsl" || ext == "xslt" then Xsl else Xml
  }

  /** A name is an XSLT file exactly when, ignoring case, its text after the
      last `.` (the whole name when there is none) is `xsl` or `xslt`. */
  lemma LanguageFromExtensionCases(fileName: string)
    ensures LanguageFromExtension(fileName) == Xsl
        <==> IsLastSegment(ToLower(fileName), {'.'}, "xsl") || IsLastSegment(ToLower(fileName), {'.'}, "xslt")
  {
    var lower := ToLower(fileName);
    var ext := AfterLast(fileName, {'.'});
    LowerLastSegment(fileName, {'.'}, ext);
    LastSegmentUnique(lower, {'.'}, ToLower(ext));
    LastSegmentUnique(lower, {'.'}, "xsl");
    LastSegmentUnique(lower, {'.'}, "xslt");
  }

  /** `path.split(/[\\/]/).pop()`: the part after the last `/` or `\`. */
  function Basename(path: string): (name: string)
    ensures IsLastSegment(path, {'/', '\\'}, name)
  {
    AfterLast(path, {'/', '\\'})
  }

  /** The name offered by the save dialog of `saveFileAs`. */
  function SuggestedSaveName(activeFilePath: Option<string>): (name: string)
    ensures Truthy(activeFilePath) ==> IsLastSegment(activeFilePath.value, {'/', '\\'}, name)
    ensures !Truthy(activeFilePath) ==> name == "untitled.xml"
  {
    if Truthy(activeFilePath) then Basename(activeFilePath.value) else "untitled.xml"
  }

  /** The key `createEditor` stores an editor under: `filePath || fileName`. */
  function EditorKey(fileName: string, filePath: Option<string>): string {
    if Truthy(filePath) then filePath.value else fileName
  }

  /** The entries after a successful "save as" from `from` to `to`. */
  function SavedAsEntries(m: Entries<EditorData>, from: Option<string>, to: string): Entries<EditorData> {
    if Truthy(from) && from.value in Keys(m) then MoveEntry(m, from.value, to) else m
  }

  /** The unsaved paths after a successful "save as": both the old and the
      new path are clean, everything else is as before. */
  function SavedAsUnsaved(unsaved: set<string>, from: Option<string>, to: string): (r: set<string>)
    ensures to !in r && (from.Some? ==> from.value !in r)
    ensures forall p :: p in unsaved && p != to && Some(p) != from ==> p in r
    ensures r <= unsaved
  {
    unsaved - (if from.Some? then {from.value} else {}) - {to}
  }

  class Registry {
    var editors: Entries<EditorData>
    var activeEditor: Option<EditorId>
    var activeFilePath: Option<string>
    var unsavedChanges: set<string>

    /** Keys are unique, and there is an active editor exactly when there is
        an active path. */
    ghost predicate Valid()
      reads this
    {
      DistinctKeys(editors) && (activeEditor.Some? <==> activeFilePath.Some?)
    }

    constructor ()
      ensures Valid()
      ensures editors == [] && activeEditor == None && activeFilePath == None && unsavedChanges == {}
    {
      editors := [];
      activeEditor := None;
      activeFilePath := None;
      unsavedChanges := {};
    }

    /** `switchToEditor(filePath)`: an unknown path changes nothing. */
    method SwitchToEditor(filePath: string)
      requires Valid()
      modifies this
      ensures Valid()
      ensures editors == old(editors) && unsavedChanges == old(unsavedChanges)
      ensures filePath in Keys(editors) ==>
        activeEditor == Some(Get(editors, filePath).value.editor) && activeFilePath == Some(filePath)
      ensures filePath !in Keys(editors) ==>
        activeEditor == old(activeEditor) && activeFilePath == old(activeFilePath)
    {
      var editorData := Get(editors, filePath);
      if editorData.Some? {
        activeEditor := Some(editorData.value.editor);
        activeFilePath := Some(filePath);
      }
    }

    /** `createEditor(fileName, content, language, filePath)`, with `editor`
        the instance Monaco creates. */
    method CreateEditor(fileName: string, content: string, language: Language, filePath: Option<string>, editor: EditorId)
      requires Valid()
      modifies this
      ensures Valid()
      ensures editors == Put(old(editors), EditorKey(fileName, filePath), EditorData(editor, fileName, language, content))
      ensures activeEditor == Some(editor) && activeFilePath == Some(EditorKey(fileName, filePath))
      ensures unsavedChanges == old(unsavedChanges)
    {
      var path := if Truthy(filePath) then filePath.value else fileName;
      PutDistinct(editors, path, EditorData(editor, fileName, language, content));
      editors := Put(editors, path, EditorData(editor, fileName, language, content));
      SwitchToEditor(path);
    }

    /** The content-change listener of an editor created under `path`. The
        listener keeps that path even after a "save as" renames the entry. */
    method OnContentChanged(path: string)
      requires Valid()
      modifies this
      ensures Valid()
      ensures unsavedChanges == old(unsavedChanges) + {path}
      ensures editors == old(editors) && activeEditor == old(activeEditor) && activeFilePath == old(activeFilePath)
    {
      unsavedChanges := unsavedChanges + {path};
    }

    /** `saveFileAs()`: `chosen` is the path picked in the dialog (`None` when
        it is cancelled) and `written` whether writing the file succeeded.
        Returns the name offered to the dialog, `None` when none is shown. */
    method SaveFileAs(chosen: Option<string>, written: bool) returns (offered: Option<string>)
      requires Valid()
      modifies this
      ensures Valid()
      ensures offered == if old(activeEditor).Some? then Some(SuggestedSaveName(old(activeFilePath))) else None
      ensures old(activeEditor).Some? && chosen.Some? && written ==>
        && editors == SavedAsEntries(old(editors), old(activeFilePath), chosen.value)
        && activeFilePath == chosen && activeEditor == old(activeEditor)
        && unsavedChanges == SavedAsUnsaved(old(unsavedChanges), old(activeFilePath), chosen.value)
      ensures !(old(activeEditor).Some? && chosen.Some? && written) ==> unchanged(this)
    {
      if activeEditor.None? {
        return None;
      }
      offered := Some(SuggestedSaveName(activeFilePath));
      if chosen.Some? && written {
        Rename(chosen.value);
      }
    }

    /** The bookkeeping after the file was written under `newPath`: the
        entry moves to the new key and both paths are marked clean. */
    method Rename(newPath: string)
      requires Valid() && activeEditor.Some?
      modifies this
      ensures Valid()
      ensures editors == SavedAsEntries(old(editors), old(activeFilePath), newPath)
      ensures activeFilePath == Some(newPath) && activeEditor == old(activeEditor)
      ensures unsavedChanges == SavedAsUnsaved(old(unsavedChanges), old(activeFilePath), newPath)
    {
      var oldPath := activeFilePath;
      activeFilePath := Some(newPath);
      if Truthy(oldPath) && oldPath.value in Keys(editors) {
        editors := MoveEntry(editors, oldPath.value, newPath);
      }
      if oldPath.Some? {
        unsavedChanges := unsavedChanges - {oldPath.value};
      }
      unsavedChanges := unsavedChanges - {newPath};
    }

    /** `saveFile()`: without an active editor and path it is `saveFileAs()`;
        otherwise a successful write marks the active path clean. */
    method SaveFile(chosen: Option<string>, written: bool) returns (offered: Option<string>)
      requires Valid()
      modifies this
      ensures Valid()
      ensures old(activeEditor).Some? && Truthy(old(activeFilePath)) ==>
        && offered == None
        && editors == old(editors) && activeEditor == old(activeEditor) && activeFilePath == old(activeFilePath)
        && unsavedChanges == if written then old(unsavedChanges) - {old(activeFilePath).value} else old(unsavedChanges)
      ensures !(old(activeEditor).Some? && Truthy(old(activeFilePath))) ==>
        && offered == (if old(activeEditor).Some? then Some(SuggestedSaveName(old(activeFilePath))) else None)
        && (old(activeEditor).Some? && chosen.Some? && written ==>
             && editors == SavedAsEntries(old(editors), old(activeFilePath), chosen.value)
             && activeFilePath == chosen && activeEditor == old(activeEditor)
             && unsavedChanges == SavedAsUnsaved(old(unsavedChanges), old(activeFilePath), chosen.value))
        && (!(old(activeEditor).Some? && chosen.Some? && written) ==> unchanged(this))
    {
      if activeEditor.None? || !Truthy(activeFilePath) {
        offered := SaveFileAs(chosen, written);
        return;
      }
      offered := None;
      if written {
        unsavedChanges := unsavedChanges - {activeFilePath.value};
      }
    }

    /** `closeTab(filePath)`, with `confirmed` the answer to the "close
        anyway?" question, which is only asked for an unsaved path. */
    method CloseTab(filePath: string, confirmed: bool)
      requires Valid()
      modifies this
      ensures Valid()
      ensures filePath !in Keys(old(editors)) || (filePath in old(unsavedChanges) && !confirmed) ==> unchanged(this)
      ensures filePath in Keys(old(editors)) && (filePath in old(unsavedChanges) ==> confirmed) ==>
        && editors == Remove(old(editors), filePath)
        && |editors| == |old(editors)| - 1
        && unsavedChanges == old(unsavedChanges) - {filePath}
        && (old(activeFilePath) != Some(filePath) ==>
             activeEditor == old(activeEditor) && activeFilePath == old(activeFilePath))
        && (old(activeFilePath) == Some(filePath) && editors == [] ==>
             activeEditor == None && activeFilePath == None)
        && (old(activeFilePath) == Some(filePath) && editors != [] ==>
             activeEditor == Some(editors[0].1.editor) && activeFilePath == Some(editors[0].0))
    {
      var editorData := Get(editors, filePath);
      if editorData.None? {
        return;
      }
      if filePath in unsavedChanges && !confirmed {
        return;
      }
      RemoveLength(editors, filePath);
      editors := Remove(editors, filePath);
      unsavedChanges := unsavedChanges - {filePath};
      if activeFilePath == Some(filePath) {
        if |editors| > 0 {
          SwitchToEditor(editors[0].0);
        } else {
          activeEditor := None;
          activeFilePath := None;
        }
      }
    }
  }
}
