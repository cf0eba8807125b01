/**
 * Preparing a notebook to run unattended: its kernel is set to the default
 * Python 3 kernelspec, and every code line that asks for workspace credentials
 * or logs in is blanked, while `Workspace.from_config()` calls are pointed at
 * the notebook folder's configuration.
 */
module Notebook {
  import opened PyStr

  /** A JSON value, as json.load produces it. */
  datatype Json =
    | JNull
    | JBool(b: bool)
    | JNumber(n: int)
    | JString(s: string)
    | JArray(items: seq<Json>)
    | JObject(fields: map<string, Json>)

  /** A notebook cell: its "cell_type", its "source" lines and every other key. */
  datatype Cell = Cell(cellType: string, source: seq<string>, rest: map<string, Json>)

  /** The kernelspec every notebook is switched to. */
  const DefaultKernelspec: Json :=
    JObject(map["display_name" := JString("python3"), "language" := JString("python"), "name" := JString("python3")])

  /** The lines that fill in credentials or log in: a code line containing one of them is blanked. */
  const Exps: seq<string> := [
    "subcription_id = '<your subscription ID>'",
    "SUBSCRIPTION_ID = '<your subscription ID>'",
    "WORKSPACE_NAME = '<your workspace name>'",
    "workspace_name = '<your workspace name>'",
    "RESOURCE_GROUP_NAME = '<your resource group>'",
    "resource_group_name = '<your resource group>'",
    "!az login -o none",
    "!az account set -s $SUBSCRIPTION_ID",
    "!az ml folder attach -w $WORKSPACE_NAME -g $RESOURCE_GROUP_NAME"
  ]

  const WsMarker: string := "ws = Workspace.from_config()"
  const WorkspaceMarker: string := "workspace = Workspace.from_config()"

  function WsLine(path: string): string {
    "ws = Workspace.from_config('" + path + "')\n"
  }

  function WorkspaceLine(path: string): string {
    "workspace = Workspace.from_config('" + path + "')\n"
  }

  /** One pass of the innermost loop body, for the credential line `exp`. */
  function StepLine(line: string, exp: string, path: string): string {
    var a := if Contains(line, exp) then "" else line;
    var b := if Contains(a, WsMarker) then WsLine(path) else a;
    if Contains(b, WorkspaceMarker) then WorkspaceLine(path) else b
  }

  /** The passes for `exps`, in order. */
  function ApplyExps(line: string, exps: seq<string>, path: string): string {
    if exps == [] then line
    else StepLine(ApplyExps(line, exps[..|exps| - 1], path), exps[|exps| - 1], path)
  }

  /** What replace_workspace makes of one code line. */
  function RewriteLine(line: string, path: string): string {
    ApplyExps(line, Exps, path)
  }

  /** What replace_workspace makes of one cell: code cells have each line rewritten, others are kept. */
  function RewriteCell(cell: Cell, path: string): (r: Cell)
    ensures r.cellType == cell.cellType && r.rest == cell.rest && |r.source| == |cell.source|
  {
    if cell.cellType == "code" then
      cell.(source := seq(|cell.source|, i requires 0 <= i < |cell.source| => RewriteLine(cell.source[i], path)))
    else cell
  }

  function RewriteCells(cells: seq<Cell>, path: string): (r: seq<Cell>)
    ensures |r| == |cells|
  {
    seq(|cells|, c requires 0 <= c < |cells| => RewriteCell(cells[c], path))
  }

  /** A loaded notebook: its "metadata" object and its list of cells, both edited in place. */
  class NotebookData {
    var metadata: map<string, Json>
    var cells: seq<Cell>

    constructor(metadata: map<string, Json>, cells: seq<Cell>)
      ensures this.metadata == metadata && this.cells == cells
    {
      this.metadata := metadata;
      this.cells := cells;
    }

    /** replace_kernel_to_notebook: metadata.kernelspec becomes the default Python 3 kernel. */
    method ReplaceKernel()
      modifies this
      ensures metadata == old(metadata)["kernelspec" := DefaultKernelspec]
      ensures cells == old(cells)
    {
      metadata := metadata["kernelspec" := DefaultKernelspec];
    }

    /** The loop over `exps` for one line. */
    static method RewriteCode(line: string, path: string) returns (r: string)
      ensures r == RewriteLine(line, path)
    {
      r := line;
      for j := 0 to |Exps|
        invariant r == ApplyExps(line, Exps[..j], path)
      {
        var exp := Exps[j];
        if Contains(r, exp) {
          r := "";
        }
        if Contains(r, WsMarker) {
          r := WsLine(path);
        }
        if Contains(r, WorkspaceMarker) {
          r := WorkspaceLine(path);
        }
        assert Exps[..j + 1][..j] == Exps[..j];
      }
      assert Exps[..|Exps|] == Exps;
    }

    /** replace_workspace: every line of every code cell is rewritten in place. */
    method ReplaceWorkspace(path: string)
      modifies this
      ensures cells == RewriteCells(old(cells), path)
      ensures metadata == old(metadata)
    {
      var c := 0;
      while c < |cells|
        invariant 0 <= c <= |cells| == |old(cells)|
        invariant metadata == old(metadata)
        invariant forall k :: 0 <= k < c ==> cells[k] == RewriteCell(old(cells)[k], path)
        invariant forall k :: c <= k < |cells| ==> cells[k] == old(cells)[k]
      {
        if cells[c].cellType == "code" {
          var i := 0;
          while i < |cells[c].source|
            invariant |cells| == |old(cells)| && metadata == old(metadata)
            invariant forall k :: 0 <= k < c ==> cells[k] == RewriteCell(old(cells)[k], path)
            invariant forall k :: c < k < |cells| ==> cells[k] == old(cells)[k]
            invariant cells[c].cellType == old(cells)[c].cellType && cells[c].rest == old(cells)[c].rest
            invariant |cells[c].source| == |old(cells)[c].source| && 0 <= i <= |cells[c].source|
            invariant forall j :: 0 <= j < i ==> cells[c].source[j] == RewriteLine(old(cells)[c].source[j], path)
            invariant forall j :: i <= j < |cells[c].source| ==> cells[c].source[j] == old(cells)[c].source[j]
          {
            var line := RewriteCode(cells[c].source[i], path);
            cells := cells[c := cells[c].(source := cells[c].source[i := line])];
            i := i + 1;
          }
          assert cells[c].source == RewriteCell(old(cells)[c], path).source;
        }
        c := c + 1;
      }
    }
  }

  // ---------------------------------------------------------------------------
  // What the rewriting does to a line

  /** "" contains nothing but "". */
  lemma EmptyContains(sub: string)
    requires sub != ""
    ensures !Contains("", sub)
  {
  }

  /** A line every pass leaves alone comes out unchanged. */
  lemma {:induction false} ApplyExpsFixed(line: string, exps: seq<string>, path: string)
    requires forall k :: 0 <= k < |exps| ==> StepLine(line, exps[k], path) == line
    ensures ApplyExps(line, exps, path) == line
  {
    if exps != [] {
      ApplyExpsFixed(line, exps[..|exps| - 1], path);
    }
  }

  /** The marker lines and the credential lines are all non-empty. */
  lemma ExpsNonEmpty()
    ensures forall k :: 0 <= k < |Exps| ==> Exps[k] != ""
    ensures WsMarker != "" && WorkspaceMarker != ""
  {
  }

  /** No credential line and no marker in a line: it is kept as it is. */
  lemma LineUntouched(line: string, path: string)
    requires forall k :: 0 <= k < |Exps| ==> !Contains(line, Exps[k])
    requires !Contains(line, WsMarker) && !Contains(line, WorkspaceMarker)
    ensures RewriteLine(line, path) == line
  {
    ApplyExpsFixed(line, Exps, path);
  }

  /** A blank line stays blank. */
  lemma BlankStaysBlank(exps: seq<string>, path: string)
    requires forall k :: 0 <= k < |exps| ==> exps[k] != ""
    ensures ApplyExps("", exps, path) == ""
  {
    ExpsNonEmpty();
    EmptyContains(WsMarker);
    EmptyContains(WorkspaceMarker);
    forall k | 0 <= k < |exps|
      ensures StepLine("", exps[k], path) == ""
    {
      EmptyContains(exps[k]);
    }
    ApplyExpsFixed("", exps, path);
  }

  /** The passes before the first credential line the line contains keep it; that one blanks it. */
  lemma {:induction false} BlankedFrom(line: string, exps: seq<string>, path: string, first: nat)
    requires forall k :: 0 <= k < |exps| ==> exps[k] != ""
    requires !Contains(line, WsMarker) && !Contains(line, WorkspaceMarker)
    requires first < |exps| && Contains(line, exps[first])
    requires forall k :: 0 <= k < first ==> !Contains(line, exps[k])
    ensures ApplyExps(line, exps, path) == ""
    decreases |exps|
  {
    var init := exps[..|exps| - 1];
    ExpsNonEmpty();
    EmptyContains(WsMarker);
    EmptyContains(WorkspaceMarker);
    if first < |exps| - 1 {
      BlankedFrom(line, init, path, first);
      EmptyContains(exps[|exps| - 1]);
    } else {
      ApplyExpsFixed(line, init, path);
    }
  }

  /** A line holding a credential line and no marker is blanked. */
  lemma LineBlanked(line: string, path: string, k: nat)
    requires k < |Exps| && Contains(line, Exps[k])
    requires !Contains(line, WsMarker) && !Contains(line, WorkspaceMarker)
    ensures RewriteLine(line, path) == ""
  {
    ExpsNonEmpty();
    var first := FirstContained(line, Exps, k);
    BlankedFrom(line, Exps, path, first);
  }

  /** The first of `exps` that `line` contains, given that `exps[k]` is one. */
  lemma FirstContained(line: string, exps: seq<string>, k: nat) returns (first: nat)
    requires k < |exps| && Contains(line, exps[k])
    ensures first <= k && Contains(line, exps[first])
    ensures forall j :: 0 <= j < first ==> !Contains(line, exps[j])
    decreases k
  {
    first := k;
    if j :| 0 <= j < k && Contains(line, exps[j]) {
      first := FirstContained(line, exps, j);
    }
  }

  /**
   * A `ws = Workspace.from_config()` line with no credential line becomes the
   * call with the folder's path, unless the new line itself holds a credential
   * line or the other marker (the path text can supply them).
   */
  lemma WsLineRewritten(line: string, path: string)
    requires Contains(line, WsMarker)
    requires forall k :: 0 <= k < |Exps| ==> !Contains(line, Exps[k])
    requires forall k :: 0 <= k < |Exps| ==> !Contains(WsLine(path), Exps[k])
    requires !Contains(WsLine(path), WorkspaceMarker)
    ensures RewriteLine(line, path) == WsLine(path)
  {
    var first := StepLine(line, Exps[0], path);
    assert first == WsLine(path);
    AfterFirstPass(line, Exps, path, WsLine(path));
  }

  /**
   * A `workspace = Workspace.from_config()` line with no credential line and no
   * `ws = …` marker becomes the call with the folder's path, unless the new
   * line itself holds a credential line or the `ws = …` marker.
   */
  lemma WorkspaceLineRewritten(line: string, path: string)
    requires Contains(line, WorkspaceMarker) && !Contains(line, WsMarker)
    requires forall k :: 0 <= k < |Exps| ==> !Contains(line, Exps[k])
    requires forall k :: 0 <= k < |Exps| ==> !Contains(WorkspaceLine(path), Exps[k])
    requires !Contains(WorkspaceLine(path), WsMarker)
    ensures RewriteLine(line, path) == WorkspaceLine(path)
  {
    var first := StepLine(line, Exps[0], path);
    assert first == WorkspaceLine(path);
    AfterFirstPass(line, Exps, path, WorkspaceLine(path));
  }

  /** Once the first pass has produced a line every later pass keeps, the result is that line. */
  lemma AfterFirstPass(line: string, exps: seq<string>, path: string, result: string)
    requires exps != [] && StepLine(line, exps[0], path) == result
    requires forall k :: 0 <= k < |exps| ==> !Contains(result, exps[k])
    requires Contains(result, WsMarker) ==> result == WsLine(path)
    requires Contains(result, WorkspaceMarker) ==> result == WorkspaceLine(path)
    ensures ApplyExps(line, exps, path) == result
  {
    ApplyExpsSplit(line, exps, path);
    forall k | 0 <= k < |exps[1..]|
      ensures StepLine(result, exps[1..][k], path) == result
    {
      assert !Contains(result, exps[k + 1]);
    }
    ApplyExpsFixed(result, exps[1..], path);
  }

  /** The first pass, then the rest. */
  lemma {:induction false} ApplyExpsSplit(line: string, exps: seq<string>, path: string)
    requires exps != []
    ensures ApplyExps(line, exps, path) == ApplyExps(StepLine(line, exps[0], path), exps[1..], path)
    decreases |exps|
  {
    if |exps| > 1 {
      ApplyExpsSplit(line, exps[..|exps| - 1], path);
      assert exps[..|exps| - 1][1..] == exps[1..][..|exps[1..]| - 1];
      assert exps[..|exps| - 1][0] == exps[0];
    } else {
      assert exps[..0] == [];
    }
  }

  /** replace_workspace keeps the number of cells, every cell's line count, and every non-code cell. */
  lemma RewriteCellsShape(cells: seq<Cell>, path: string, c: nat)
    requires c < |cells|
    ensures |RewriteCells(cells, path)| == |cells|
    ensures |RewriteCells(cells, path)[c].source| == |cells[c].source|
    ensures cells[c].cellType != "code" ==> RewriteCells(cells, path)[c] == cells[c]
  {
  }
}
