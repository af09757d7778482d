/**
 * The application shell (client/src/App.tsx): the three steps upload, edit
 * and export, the forest being edited, the selected node, the original
 * text and file name, and the processing flags shown by the upload form.
 */
module AppSession {
  import opened Tree
  import opened TreeEdits
  import opened MarkdownParser

  /** `updateNodeContent`: the new content on every matching node, searching below non-matching nodes only. */
  function UpdateNodeContent(nodes: seq<TreeNode>, nodeId: string, newContent: string): (r: seq<TreeNode>)
    ensures |r| == |nodes| && Ids(r) == Ids(nodes) && Size(r) == Size(nodes)
    ensures nodeId !in Ids(nodes) ==> r == nodes
  {
    EditKeepsIds(nodes, nodeId, Recontent(newContent));
    EditAbsentIf(nodes, nodeId, Recontent(newContent));
    EditMatching(nodes, nodeId, Recontent(newContent))
  }

  lemma EditAbsentIf(nodes: seq<TreeNode>, nodeId: string, e: Edit)
    ensures nodeId !in Ids(nodes) ==> EditMatching(nodes, nodeId, e) == nodes
  {
    if nodeId !in Ids(nodes) {
      EditAbsent(nodes, nodeId, e);
    }
  }

  /**
   * The content change keeps the ids, the node count and the root count,
   * leaves a forest without the id as it is, and on distinct ids changes
   * the content of the one node with the id and nothing else.
   */
  lemma UpdateNodeContentFacts(nodes: seq<TreeNode>, nodeId: string, newContent: string)
    ensures var r := UpdateNodeContent(nodes, nodeId, newContent);
      |r| == |nodes| && Ids(r) == Ids(nodes) && Size(r) == Size(nodes)
    ensures nodeId !in Ids(nodes) ==> UpdateNodeContent(nodes, nodeId, newContent) == nodes
    ensures UniqueIds(nodes) ==>
      Labels(UpdateNodeContent(nodes, nodeId, newContent)) == EditLabels(Labels(nodes), nodeId, Recontent(newContent))
  {
    EditKeepsIds(nodes, nodeId, Recontent(newContent));
    if nodeId !in Ids(nodes) {
      EditAbsent(nodes, nodeId, Recontent(newContent));
    }
    if UniqueIds(nodes) {
      EditUnique(nodes, nodeId, Recontent(newContent));
    }
  }

  /**
   * On a freshly parsed forest the ids are distinct, so a content change
   * replaces the content of exactly the one section with that id.
   */
  lemma ContentChangeOnParsed(markdown: string, nodeId: string, newContent: string)
    ensures var f := ParsedTree(markdown);
      Labels(UpdateNodeContent(f, nodeId, newContent)) == EditLabels(Labels(f), nodeId, Recontent(newContent))
  {
    ParsedIds(markdown);
    UpdateNodeContentFacts(ParsedTree(markdown), nodeId, newContent);
  }

  datatype Step = Upload | Edit | Export

  /** `ProcessingState` of the shared types. */
  datatype ProcessingState = ProcessingState(isUploading: bool, isProcessing: bool, error: Option<string>, success: bool)

  /** All flags off and no error: the initial value and what a reset restores. */
  const Idle := ProcessingState(false, false, None, false)

  /** The buttons and callbacks that move between steps. */
  datatype Action = FileProcessed | ExportChunks | BackToEditor | StartOver

  /**
   * The step an action leads to, or `None` where the step shows no control
   * for it: the upload forms only in the upload step, "Export Chunks" only
   * in the edit step, "Back to Editor" only in the export step, "Start
   * Over" in both of those.
   */
  function Transition(s: Step, a: Action): (r: Option<Step>)
    ensures r.Some? <==>
      (a == FileProcessed && s == Upload) || (a == ExportChunks && s == Edit) ||
      (a == BackToEditor && s == Export) || (a == StartOver && s != Upload)
  {
    match a
    case FileProcessed => if s == Upload then Some(Edit) else None
    case ExportChunks => if s == Edit then Some(Export) else None
    case BackToEditor => if s == Export then Some(Edit) else None
    case StartOver => if s != Upload then Some(Upload) else None
  }

  /** Export is entered only from the editor, and upload is entered only by starting over. */
  lemma TransitionTargets(s: Step, a: Action)
    requires Transition(s, a).Some?
    ensures Transition(s, a).value == Export <==> s == Edit && a == ExportChunks
    ensures Transition(s, a).value == Upload <==> a == StartOver
    ensures Transition(s, a).value == Edit <==> a == FileProcessed || a == BackToEditor
  {
  }

  /** The state of `App`. */
  class Session {
    var step: Step
    var originalMarkdown: string
    var originalFilename: string
    var tree: seq<TreeNode>
    var selected: Option<TreeNode>
    var processing: ProcessingState

    /** In the upload step nothing of an earlier document is left. */
    predicate Consistent()
      reads this
    {
      step == Upload ==> originalMarkdown == "" && originalFilename == "" && tree == [] && selected == None
    }

    constructor ()
      ensures step == Upload && originalMarkdown == "" && originalFilename == ""
      ensures tree == [] && selected == None && processing == Idle
      ensures Consistent()
    {
      step := Upload;
      originalMarkdown := "";
      originalFilename := "";
      tree := [];
      selected := None;
      processing := Idle;
    }

    /** `handleFileProcessed`: keeps the text and name, parses the text and opens the editor. */
    method HandleFileProcessed(markdown: string, filename: string)
      requires Transition(step, FileProcessed).Some?
      modifies this
      ensures originalMarkdown == markdown && originalFilename == filename
      ensures tree == ParsedTree(markdown) && step == Edit
      ensures selected == old(selected) && processing == old(processing)
      ensures Consistent()
    {
      var parsedTree := ParseMarkdownToTree(markdown);
      Load(markdown, filename, parsedTree);
    }

    /** The state updates of `handleFileProcessed`, once the text is parsed. */
    method Load(markdown: string, filename: string, parsedTree: seq<TreeNode>)
      modifies this
      ensures originalMarkdown == markdown && originalFilename == filename
      ensures tree == parsedTree && step == Edit
      ensures selected == old(selected) && processing == old(processing)
    {
      originalMarkdown, originalFilename, tree, step := markdown, filename, parsedTree, Edit;
    }

    /** The delayed callback scheduled by `handleFileProcessed`: the flags return to idle. */
    method ProcessingSettled()
      requires Consistent()
      modifies this
      ensures processing == Idle
      ensures step == old(step) && tree == old(tree) && selected == old(selected)
      ensures originalMarkdown == old(originalMarkdown) && originalFilename == old(originalFilename)
      ensures Consistent()
    {
      processing := Idle;
    }

    /** `setProcessingState`, as the upload form calls it. */
    method SetProcessingState(p: ProcessingState)
      requires Consistent()
      modifies this
      ensures processing == p
      ensures step == old(step) && tree == old(tree) && selected == old(selected)
      ensures originalMarkdown == old(originalMarkdown) && originalFilename == old(originalFilename)
      ensures Consistent()
    {
      processing := p;
    }

    /** `handleTreeChange`, called by the tree editor shown in the edit step. */
    method HandleTreeChange(newTree: seq<TreeNode>)
      requires step == Edit
      modifies this
      ensures tree == newTree
      ensures step == old(step) && selected == old(selected) && processing == old(processing)
      ensures originalMarkdown == old(originalMarkdown) && originalFilename == old(originalFilename)
      ensures Consistent()
    {
      tree := newTree;
    }

    /** `handleNodeSelect`, called by the tree editor shown in the edit step. */
    method HandleNodeSelect(node: Option<TreeNode>)
      requires step == Edit
      modifies this
      ensures selected == node
      ensures step == old(step) && tree == old(tree) && processing == old(processing)
      ensures originalMarkdown == old(originalMarkdown) && originalFilename == old(originalFilename)
      ensures Consistent()
    {
      selected := node;
    }

    /**
     * `handleContentChange`, called by the preview shown in the edit step:
     * the forest gets the new content, and the selected copy too when its
     * id is the edited one.
     */
    method HandleContentChange(nodeId: string, newContent: string)
      requires step == Edit
      modifies this
      ensures tree == UpdateNodeContent(old(tree), nodeId, newContent)
      ensures selected ==
        if old(selected).Some? && old(selected).value.id == nodeId
        then Some(old(selected).value.(content := newContent))
        else old(selected)
      ensures step == old(step) && processing == old(processing)
      ensures originalMarkdown == old(originalMarkdown) && originalFilename == old(originalFilename)
      ensures Consistent()
    {
      var newTree := UpdateNodeContent(tree, nodeId, newContent);
      tree := newTree;
      if selected.Some? && selected.value.id == nodeId {
        selected := Some(selected.value.(content := newContent));
      }
    }

    /** `handleReset`, the "Start Over" button. */
    method HandleReset()
      requires Transition(step, StartOver).Some?
      modifies this
      ensures step == Upload && originalMarkdown == "" && originalFilename == ""
      ensures tree == [] && selected == None && processing == Idle
      ensures Consistent()
    {
      step := Upload;
      originalMarkdown := "";
      originalFilename := "";
      tree := [];
      selected := None;
      processing := Idle;
    }

    /** "Export Chunks" in the edit step. */
    method GoToExport()
      requires Transition(step, ExportChunks).Some?
      modifies this
      ensures step == Export && tree == old(tree) && selected == old(selected) && processing == old(processing)
      ensures originalMarkdown == old(originalMarkdown) && originalFilename == old(originalFilename)
      ensures Consistent()
    {
      step := Export;
    }

    /** "Back to Editor" in the export step. */
    method GoBackToEditor()
      requires Transition(step, BackToEditor).Some?
      modifies this
      ensures step == Edit && tree == old(tree) && selected == old(selected) && processing == old(processing)
      ensures originalMarkdown == old(originalMarkdown) && originalFilename == old(originalFilename)
      ensures Consistent()
    {
      step := Edit;
    }
  }
}
