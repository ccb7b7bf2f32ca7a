/** The pane and file state of the three-pane `XMLCooktop` class in
    renderer/js/cooktop.js, and the decisions it takes from it: which name
    `saveFile` offers, where `openFileByPath` loads a file, when `runXSLT`
    and `saveOutput` refuse to start, and how `refreshPreviewContent` shows
    the output. Editor contents, the DOM and the file system are not part of
    this model; what they answer comes in as parameters. */
module Cooktop {
  import opened Wrappers
  import opened Text

  const XmlPane: string := "xml-input"
  const XsltPane: string := "xslt-input"
  const OutputPane: string := "output"

  /** The extension and the default name `saveFile` uses for a pane. */
  datatype SaveTarget = SaveTarget(extension: string, defaultName: string)

  /** Why `saveFile` shows an error instead of a dialog. */
  datatype SaveRefusal = NoEditor | OutputNotSavable

  /** renderer/js/cooktop.js:1141-1151. */
  function DefaultSaveTarget(pane: string): (t: SaveTarget)
    ensures |t.extension| <= |t.defaultName|
    ensures t.defaultName[|t.defaultName| - |t.extension|..] == t.extension
  {
    if pane == XmlPane then SaveTarget(".xml", "document.xml")
    else if pane == XsltPane then SaveTarget(".xsl", "transform.xsl")
    else SaveTarget(".txt", "untitled.txt")
  }

  /** The checks of renderer/js/cooktop.js:1128-1138, in their order, and the
      default name offered when they pass. */
  function SaveCheck(pane: string, hasEditor: bool): (r: Result<string, SaveRefusal>)
    ensures r.Success? <==> hasEditor && pane != OutputPane
    ensures !hasEditor ==> r == Failure(NoEditor)
    ensures hasEditor && pane == OutputPane ==> r == Failure(OutputNotSavable)
    ensures r.Success? ==> r.value == DefaultSaveTarget(pane).defaultName
  {
    if !hasEditor then Failure(NoEditor)
    else if pane == OutputPane then Failure(OutputNotSavable)
    else Success(DefaultSaveTarget(pane).defaultName)
  }

  /** `filePath.split("/").pop() || filePath.split("\\").pop()`
      (renderer/js/cooktop.js:1100). */
  function FileNameOf(filePath: string): (name: string)
    ensures filePath != [] && filePath[|filePath| - 1] != '/' ==>
              name != [] && IsLastSegment(filePath, {'/'}, name)
    ensures filePath == [] || filePath[|filePath| - 1] == '/' ==>
              IsLastSegment(filePath, {'\\'}, name)
  {
    var slash := AfterLast(filePath, {'/'});
    if slash != [] then slash else AfterLast(filePath, {'\\'})
  }

  /** The pane a file is loaded into by extension when the current pane has
      no editor (renderer/js/cooktop.js:1109-1116); `None` leaves every pane. */
  function RouteByExtension(filePath: string): Option<string> {
    var ext := ToLower(AfterLast(filePath, {'.'}));
    if ext == "xml" then Some(XmlPane)
    else if ext == "xsl" || ext == "xslt" then Some(XsltPane)
    else None
  }

  /** Routing looks only at the text after the last `.`, ignoring case. */
  lemma RouteByExtensionCases(filePath: string)
    ensures RouteByExtension(filePath) == Some(XmlPane)
        <==> IsLastSegment(ToLower(filePath), {'.'}, "xml")
    ensures RouteByExtension(filePath) == Some(XsltPane)
        <==> IsLastSegment(ToLower(filePath), {'.'}, "xsl") || IsLastSegment(ToLower(filePath), {'.'}, "xslt")
    ensures RouteByExtension(filePath).None?
        <==> (&& !IsLastSegment(ToLower(filePath), {'.'}, "xml")
              && !IsLastSegment(ToLower(filePath), {'.'}, "xsl")
              && !IsLastSegment(ToLower(filePath), {'.'}, "xslt"))
  {
    var lower := ToLower(filePath);
    var ext := AfterLast(filePath, {'.'});
    LowerLastSegment(filePath, {'.'}, ext);
    LastSegmentUnique(lower, {'.'}, ToLower(ext));
    LastSegmentUnique(lower, {'.'}, "xml");
    LastSegmentUnique(lower, {'.'}, "xsl");
    LastSegmentUnique(lower, {'.'}, "xslt");
  }

  /** A name whose last `.`-piece is already lower case routes by that piece. */
  lemma RouteByLowerExtension(name: string, ext: string)
    requires IsLastSegment(name, {'.'}, ext) && ToLower(ext) == ext
    ensures RouteByExtension(name) == (if ext == "xml" then Some(XmlPane)
                                       else if ext == "xsl" || ext == "xslt" then Some(XsltPane)
                                       else None)
  {
    LastSegmentUnique(name, {'.'}, ext);
  }

  /** `ToLower` leaves text without capital letters as it is. */
  lemma LowerOfLower(s: string)
    requires forall i :: 0 <= i < |s| ==> 'a' <= s[i] <= 'z'
    ensures ToLower(s) == s
  {
  }

  /** The default name `stem.ext` of a pane routes by its extension. */
  lemma RouteDefaultName(name: string, ext: string)
    requires |ext| < |name| && name[|name| - |ext| - 1] == '.' && name[|name| - |ext|..] == ext
    requires forall i :: 0 <= i < |ext| ==> 'a' <= ext[i] <= 'z'
    ensures RouteByExtension(name) == (if ext == "xml" then Some(XmlPane)
                                       else if ext == "xsl" || ext == "xslt" then Some(XsltPane)
                                       else None)
  {
    LowerOfLower(ext);
    RouteByLowerExtension(name, ext);
  }

  /** A file saved under the default name of an input pane is opened into
      that pane again; the fallback name `untitled.txt` is routed nowhere. */
  lemma DefaultNameRoutesBack(pane: string)
    ensures pane == XmlPane || pane == XsltPane ==>
              RouteByExtension(DefaultSaveTarget(pane).defaultName) == Some(pane)
    ensures pane != XmlPane && pane != XsltPane ==>
              RouteByExtension(DefaultSaveTarget(pane).defaultName).None?
  {
    var name := DefaultSaveTarget(pane).defaultName;
    var ext := DefaultSaveTarget(pane).extension[1..];
    RouteDefaultName(name, ext);
  }

  /** How `runXSLT` (renderer/js/cooktop.js:753-767) ends before calling a
      transformer: an input editor is missing (`getValue` on `null` throws),
      the XML is blank, the XSLT is blank, or neither. */
  datatype RunCheck = MissingEditor | NoXml | NoXslt | Proceed

  /** `xml` and `xsl` are the contents of the two input editors, `None` when
      the editor does not exist. */
  function RunGuard(xml: Option<string>, xsl: Option<string>): RunCheck {
    if xml.None? || xsl.None? then MissingEditor
    else if Trim(xml.value) == [] then NoXml
    else if Trim(xsl.value) == [] then NoXslt
    else Proceed
  }

  /** The transformation runs exactly when both inputs have a character that
      is not whitespace, and a blank XML input is reported first. */
  lemma RunGuardCases(xml: string, xsl: string)
    ensures RunGuard(Some(xml), Some(xsl)) == NoXml <==> AllWhitespace(xml)
    ensures RunGuard(Some(xml), Some(xsl)) == NoXslt <==> !AllWhitespace(xml) && AllWhitespace(xsl)
    ensures RunGuard(Some(xml), Some(xsl)) == Proceed <==> !AllWhitespace(xml) && !AllWhitespace(xsl)
  {
    TrimEmptyIff(xml);
    TrimEmptyIff(xsl);
  }

  /** What the preview shows (renderer/js/cooktop.js:1313-1388): a
      placeholder for blank output, the output as an HTML document, the
      output wrapped in an HTML document, or the output as text. */
  datatype Preview = Placeholder | Verbatim | Wrapped | PlainText

  /** The markers of renderer/js/cooktop.js:1330-1335. */
  predicate LooksLikeHtml(lower: string) {
    HasPageMarker(lower) || HasBlockMarker(lower)
  }

  predicate HasPageMarker(lower: string) {
    Contains(lower, "<html") || Contains(lower, "<table") || Contains(lower, "<body")
  }

  predicate HasBlockMarker(lower: string) {
    Contains(lower, "<div") || Contains(lower, "<h1") || Contains(lower, "<h2")
  }

  /** `refreshPreviewContent` for the content of the output editor; `None`
      when there is no output editor and nothing is shown. */
  function PreviewOf(output: Option<string>): Option<Preview> {
    if output.None? then None
    else if Trim(output.value) == [] then Some(Placeholder)
    else
      var lower := ToLower(Trim(output.value));
      if !LooksLikeHtml(lower) then Some(PlainText)
      else if Contains(lower, "<html") then Some(Verbatim)
      else Some(Wrapped)
  }

  /** Trimming before the search makes no difference to a marker, which has
      no whitespace. */
  lemma MarkerIgnoresTrim(output: string, marker: string)
    requires marker != [] && marker[0] == '<'
    requires forall i :: 1 <= i < |marker| ==> 'a' <= marker[i] <= 'z' || '0' <= marker[i] <= '9'
    ensures Contains(ToLower(Trim(output)), marker) <==> Contains(ToLower(output), marker)
  {
    assert NoWhitespace(marker);
    var a := TrimOffset(output);
    LowerCore(output, Trim(output), a);
    ContainsInCore(ToLower(output), ToLower(Trim(output)), a, marker);
  }

  /** `MarkerIgnoresTrim` for each marker of a list. */
  lemma MarkersIgnoreTrim(output: string, markers: seq<string>)
    requires forall j :: 0 <= j < |markers| ==> markers[j] != [] && markers[j][0] == '<'
    requires forall j, i :: 0 <= j < |markers| && 1 <= i < |markers[j]| ==>
               'a' <= markers[j][i] <= 'z' || '0' <= markers[j][i] <= '9'
    ensures forall j :: 0 <= j < |markers| ==>
              (Contains(ToLower(Trim(output)), markers[j]) <==> Contains(ToLower(output), markers[j]))
  {
    forall j | 0 <= j < |markers|
      ensures Contains(ToLower(Trim(output)), markers[j]) <==> Contains(ToLower(output), markers[j])
    {
      MarkerIgnoresTrim(output, markers[j]);
    }
  }

  lemma PageMarkersIgnoreTrim(output: string)
    ensures HasPageMarker(ToLower(Trim(output))) <==> HasPageMarker(ToLower(output))
    ensures Contains(ToLower(Trim(output)), "<html") <==> Contains(ToLower(output), "<html")
  {
    var markers := ["<html", "<table", "<body"];
    MarkersIgnoreTrim(output, markers);
    assert markers[0] == "<html" && markers[1] == "<table" && markers[2] == "<body";
  }

  lemma BlockMarkersIgnoreTrim(output: string)
    ensures HasBlockMarker(ToLower(Trim(output))) <==> HasBlockMarker(ToLower(output))
  {
    var markers := ["<div", "<h1", "<h2"];
    MarkersIgnoreTrim(output, markers);
    assert markers[0] == "<div" && markers[1] == "<h1" && markers[2] == "<h2";
  }

  /** The preview decided on the whole output, without trimming. */
  lemma PreviewOfCases(output: string)
    ensures PreviewOf(Some(output)) == Some(Placeholder) <==> AllWhitespace(output)
    ensures PreviewOf(Some(output)) == Some(Verbatim)
        <==> !AllWhitespace(output) && Contains(ToLower(output), "<html")
    ensures PreviewOf(Some(output)) == Some(Wrapped)
        <==> !AllWhitespace(output) && !Contains(ToLower(output), "<html") && LooksLikeHtml(ToLower(output))
    ensures PreviewOf(Some(output)) == Some(PlainText)
        <==> !AllWhitespace(output) && !LooksLikeHtml(ToLower(output))
  {
    TrimEmptyIff(output);
    PageMarkersIgnoreTrim(output);
    BlockMarkersIgnoreTrim(output);
  }

  /** Why `saveOutput` shows an error instead of a dialog. */
  datatype OutputRefusal = NothingToSave

  /** renderer/js/cooktop.js:1178-1188: `this.outputContent || ''` must not
      be blank; the name depends on `this.activeTab`. */
  function SaveOutputPlan(outputContent: Option<string>, activeTab: Option<string>): (r: Result<string, OutputRefusal>)
    ensures r.Success? <==> outputContent.Some? && !AllWhitespace(outputContent.value)
    ensures r.Success? ==> r.value == (if activeTab == Some("preview") then "output.html" else "output.xml")
  {
    var content := if Truthy(outputContent) then outputContent.value else "";
    TrimEmptyIff(content);
    if Trim(content) == [] then Failure(NothingToSave)
    else Success(if activeTab == Some("preview") then "output.html" else "output.xml")
  }

  class CooktopState {
    /** The panes whose Monaco editor exists (`this.editors[p]` not `null`). */
    var editorPanes: set<string>
    var currentPane: string
    var hasUnsavedChanges: bool
    /** `this.currentFiles`: the file name or path shown for a pane. */
    var currentFiles: map<string, Option<string>>
    /** Read by `saveOutput` but assigned nowhere in the class. */
    var outputContent: Option<string>
    var activeTab: Option<string>

    ghost predicate Valid()
      reads this
    {
      && editorPanes <= {XmlPane, XsltPane, OutputPane}
      && XmlPane in currentFiles && XsltPane in currentFiles
      && outputContent.None? && activeTab.None?
    }

    /** renderer/js/cooktop.js:4-16. */
    constructor ()
      ensures Valid()
      ensures editorPanes == {} && currentPane == XmlPane && !hasUnsavedChanges
      ensures currentFiles == map[XmlPane := None, XsltPane := None]
    {
      editorPanes := {};
      currentPane := XmlPane;
      hasUnsavedChanges := false;
      currentFiles := map[XmlPane := None, XsltPane := None];
      outputContent := None;
      activeTab := None;
    }

    /** `createEditor(paneId, language)` for one of the three panes whose
        container exists. */
    method CreatePaneEditor(paneId: string)
      requires Valid() && paneId in {XmlPane, XsltPane, OutputPane}
      modifies this
      ensures Valid()
      ensures editorPanes == old(editorPanes) + {paneId}
      ensures currentPane == old(currentPane) && hasUnsavedChanges == old(hasUnsavedChanges)
      ensures currentFiles == old(currentFiles)
    {
      editorPanes := editorPanes + {paneId};
    }

    /** The content-change listener every editor gets. */
    method OnContentChanged()
      requires Valid()
      modifies this
      ensures Valid()
      ensures hasUnsavedChanges
      ensures editorPanes == old(editorPanes) && currentPane == old(currentPane) && currentFiles == old(currentFiles)
    {
      hasUnsavedChanges := true;
    }

    /** The focus and click listeners of an editor, and the pane buttons of
        renderer/js/cooktop.js:396-427, which set the current pane. */
    method FocusPane(paneId: string)
      requires Valid()
      modifies this
      ensures Valid()
      ensures currentPane == paneId
      ensures editorPanes == old(editorPanes) && hasUnsavedChanges == old(hasUnsavedChanges)
      ensures currentFiles == old(currentFiles)
    {
      currentPane := paneId;
    }

    /** `switchPane(paneId)`: the pane becomes current only when its pane and
        tab elements exist (`shown`). */
    method SwitchPane(paneId: string, shown: bool)
      requires Valid()
      modifies this
      ensures Valid()
      ensures currentPane == if shown then paneId else old(currentPane)
      ensures editorPanes == old(editorPanes) && hasUnsavedChanges == old(hasUnsavedChanges)
      ensures currentFiles == old(currentFiles)
    {
      if shown {
        currentPane := paneId;
      }
    }

    /** `newDocument()`: the templates are written with `setValue` into the
        XML editor, then the XSLT editor. Each write fires the content-change
        listener, and writing into a missing editor throws. So with no XML
        editor nothing changes, and with no XSLT editor only the unsaved flag
        is set. With both, the file names are cleared, the document ends
        clean, and the pane `source` is switched to when it exists. */
    method NewDocument(sourceShown: bool)
      requires Valid()
      modifies this
      ensures Valid()
      ensures editorPanes == old(editorPanes)
      ensures XmlPane !in editorPanes ==> unchanged(this)
      ensures XmlPane in editorPanes && XsltPane !in editorPanes ==>
        && hasUnsavedChanges
        && currentFiles == old(currentFiles) && currentPane == old(currentPane)
      ensures XmlPane in editorPanes && XsltPane in editorPanes ==>
        && currentFiles == old(currentFiles)[XmlPane := None][XsltPane := None]
        && !hasUnsavedChanges
        && currentPane == if sourceShown then "source" else old(currentPane)
    {
      if XmlPane !in editorPanes {
        return;
      }
      OnContentChanged();
      if XsltPane !in editorPanes {
        return;
      }
      currentFiles := currentFiles[XmlPane := None];
      currentFiles := currentFiles[XsltPane := None];
      hasUnsavedChanges := false;
      SwitchPane("source", sourceShown);
    }

    /** `openFileByPath(filePath)` after the read; `readOk` is whether it
        succeeded. The file goes to the current pane when that has an editor,
        otherwise to the pane its extension names, if that has an editor.
        Loading it with `setValue` fires the content-change listener, so the
        document becomes unsaved whenever a pane is loaded. */
    method OpenFileByPath(filePath: string, readOk: bool)
      requires Valid()
      modifies this
      ensures Valid()
      ensures editorPanes == old(editorPanes) && currentPane == old(currentPane)
      ensures !readOk ==> currentFiles == old(currentFiles) && hasUnsavedChanges == old(hasUnsavedChanges)
      ensures readOk && currentPane in editorPanes ==>
        && currentFiles == old(currentFiles)[currentPane := Some(FileNameOf(filePath))]
        && hasUnsavedChanges
      ensures readOk && currentPane !in editorPanes ==>
        var route := RouteByExtension(filePath);
        var loaded := route.Some? && route.value in editorPanes;
        && currentFiles == (if loaded then old(currentFiles)[route.value := Some(FileNameOf(filePath))]
                            else old(currentFiles))
        && hasUnsavedChanges == (loaded || old(hasUnsavedChanges))
    {
      if !readOk {
        return;
      }
      var fileName := FileNameOf(filePath);
      if currentPane in editorPanes {
        OnContentChanged();
        currentFiles := currentFiles[currentPane := Some(fileName)];
      } else {
        var route := RouteByExtension(filePath);
        if route.Some? && route.value in editorPanes {
          OnContentChanged();
          currentFiles := currentFiles[route.value := Some(fileName)];
        }
      }
    }

    /** `saveFile()`: `chosen` is the path picked in the dialog (`None` when
        it is cancelled) and `written` whether writing succeeded. Returns the
        refusal, or the default name offered to the dialog. */
    method SaveFile(chosen: Option<string>, written: bool) returns (offered: Result<string, SaveRefusal>)
      requires Valid()
      modifies this
      ensures Valid()
      ensures offered == SaveCheck(old(currentPane), old(currentPane) in old(editorPanes))
      ensures offered.Success? && chosen.Some? && written ==>
        && currentFiles == old(currentFiles)[currentPane := chosen]
        && !hasUnsavedChanges
        && editorPanes == old(editorPanes) && currentPane == old(currentPane)
      ensures !(offered.Success? && chosen.Some? && written) ==> unchanged(this)
    {
      if currentPane !in editorPanes {
        return Failure(NoEditor);
      }
      if currentPane == OutputPane {
        return Failure(OutputNotSavable);
      }
      var target := DefaultSaveTarget(currentPane);
      offered := Success(target.defaultName);
      if chosen.Some? && written {
        currentFiles := currentFiles[currentPane := chosen];
        hasUnsavedChanges := false;
      }
    }

    /** `saveFileAs()` is `saveFile()`. */
    method SaveFileAs(chosen: Option<string>, written: bool) returns (offered: Result<string, SaveRefusal>)
      requires Valid()
      modifies this
      ensures Valid()
      ensures offered == SaveCheck(old(currentPane), old(currentPane) in old(editorPanes))
      ensures offered.Success? && chosen.Some? && written ==>
        && currentFiles == old(currentFiles)[currentPane := chosen]
        && !hasUnsavedChanges
        && editorPanes == old(editorPanes) && currentPane == old(currentPane)
      ensures !(offered.Success? && chosen.Some? && written) ==> unchanged(this)
    {
      offered := SaveFile(chosen, written);
    }

    /** `saveOutput()`: since `outputContent` is never assigned, it always
        stops at the "No output to save" error. */
    method SaveOutput() returns (r: Result<string, OutputRefusal>)
      requires Valid()
      ensures r == Failure(NothingToSave)
    {
      var content := match outputContent case Some(c) => c case None => "";
      if Trim(content) == [] {
        return Failure(NothingToSave);
      }
      var isHtml := activeTab == Some("preview");
      r := Success(if isHtml then "output.html" else "output.xml");
    }
  }
}
