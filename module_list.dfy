/** The job list: main keeps every non-empty line of the modules file, in
    file order, duplicates included. Lines arrive already split. */
module ModuleList {

  /** The non-empty lines of `lines`, in order. */
  function NonEmptyLines(lines: seq<string>): (r: seq<string>)
    ensures forall k :: 0 <= k < |r| ==> r[k] != ""
  {
    if |lines| == 0 then []
    else
      var last := lines[|lines| - 1];
      NonEmptyLines(lines[..|lines| - 1]) + (if last != "" then [last] else [])
  }

  /** Blank lines are dropped and nothing else is: every non-empty line keeps
      its multiplicity (duplicates stay), so the job count is the number of
      non-empty lines. */
  lemma {:induction false} NonEmptyLinesCounts(lines: seq<string>)
    ensures multiset(NonEmptyLines(lines)) == multiset(lines)["" := 0]
    ensures |NonEmptyLines(lines)| == |lines| - multiset(lines)[""]
  {
    if |lines| > 0 {
      var n := |lines| - 1;
      var front, last := lines[..n], lines[n];
      NonEmptyLinesCounts(front);
      assert lines == front + [last];
      DropOneStep(NonEmptyLines(lines), NonEmptyLines(front), lines, front, last, "");
    }
  }

  /** One step of dropping every copy of `blank`: appending `last` to the
      input appends it to the output unless it is `blank`. */
  lemma DropOneStep<T>(r: seq<T>, rFront: seq<T>, s: seq<T>, front: seq<T>, last: T, blank: T)
    requires multiset(rFront) == multiset(front)[blank := 0] && |rFront| == |front| - multiset(front)[blank]
    requires s == front + [last] && r == rFront + (if last != blank then [last] else [])
    ensures multiset(r) == multiset(s)[blank := 0] && |r| == |s| - multiset(s)[blank]
  {
    assert multiset(s) == multiset(front) + multiset{last};
  }

  /** Positions in `lines` of the lines NonEmptyLines keeps, in order. */
  ghost function KeptPositions(lines: seq<string>): (p: seq<nat>)
    ensures |p| == |NonEmptyLines(lines)|
    ensures forall k :: 0 <= k < |p| ==> p[k] < |lines|
  {
    if |lines| == 0 then []
    else
      var n := |lines| - 1;
      KeptPositions(lines[..n]) + (if lines[n] != "" then [n] else [])
  }

  /** Each kept position points at the kept line itself. */
  lemma {:induction false} KeptPositionsPointAtLines(lines: seq<string>)
    ensures forall k :: 0 <= k < |KeptPositions(lines)| ==>
      lines[KeptPositions(lines)[k]] == NonEmptyLines(lines)[k]
  {
    if |lines| > 0 {
      var n := |lines| - 1;
      var front := lines[..n];
      KeptPositionsPointAtLines(front);
      var pf := KeptPositions(front);
      var p := KeptPositions(lines);
      var r := NonEmptyLines(lines);
      assert p == pf + (if lines[n] != "" then [n] else []);
      assert r == NonEmptyLines(front) + (if lines[n] != "" then [lines[n]] else []);
      forall k | 0 <= k < |p| ensures lines[p[k]] == r[k] {
        if k < |pf| {
          assert p[k] == pf[k] && lines[pf[k]] == front[pf[k]];
        }
      }
    }
  }

  /** The kept positions are strictly increasing. */
  lemma {:induction false} KeptPositionsIncrease(lines: seq<string>)
    ensures forall k, l :: 0 <= k < l < |KeptPositions(lines)| ==>
      KeptPositions(lines)[k] < KeptPositions(lines)[l]
  {
    if |lines| > 0 {
      var n := |lines| - 1;
      var front := lines[..n];
      KeptPositionsIncrease(front);
      var pf := KeptPositions(front);
      var p := KeptPositions(lines);
      assert p == pf + (if lines[n] != "" then [n] else []);
      assert forall k :: 0 <= k < |pf| ==> p[k] == pf[k];
    }
  }

  /** Every non-empty line has its position kept. */
  lemma {:induction false} KeptPositionsCoverNonEmpty(lines: seq<string>)
    ensures forall i :: 0 <= i < |lines| && lines[i] != "" ==> i in KeptPositions(lines)
  {
    if |lines| > 0 {
      var n := |lines| - 1;
      var front := lines[..n];
      KeptPositionsCoverNonEmpty(front);
      var pf := KeptPositions(front);
      var p := KeptPositions(lines);
      assert p == pf + (if lines[n] != "" then [n] else []);
      assert forall i :: 0 <= i < n ==> front[i] == lines[i];
    }
  }

  /** The scanning loop of main: append each non-empty line to the list. */
  method FilterModules(lines: seq<string>) returns (modules: seq<string>)
    ensures modules == NonEmptyLines(lines)
  {
    modules := [];
    for i := 0 to |lines|
      invariant modules == NonEmptyLines(lines[..i])
    {
      assert lines[..i + 1][..i] == lines[..i];
      if lines[i] != "" {
        modules := modules + [lines[i]];
      }
    }
    assert lines[..|lines|] == lines;
  }

  /** A list without blank lines passes through unchanged. */
  lemma {:induction false} NonEmptyLinesKeepsCleanList(lines: seq<string>)
    requires forall k :: 0 <= k < |lines| ==> lines[k] != ""
    ensures NonEmptyLines(lines) == lines
  {
    if |lines| > 0 {
      NonEmptyLinesKeepsCleanList(lines[..|lines| - 1]);
    }
  }

  /** Filtering twice is filtering once. */
  lemma NonEmptyLinesIdempotent(lines: seq<string>)
    ensures NonEmptyLines(NonEmptyLines(lines)) == NonEmptyLines(lines)
  {
    NonEmptyLinesKeepsCleanList(NonEmptyLines(lines));
  }

  /** The filter distributes over concatenation of line lists. */
  lemma {:induction false} NonEmptyLinesAppend(a: seq<string>, b: seq<string>)
    ensures NonEmptyLines(a + b) == NonEmptyLines(a) + NonEmptyLines(b)
    decreases |b|
  {
    if |b| == 0 {
      assert a + b == a;
    } else {
      var n := |b| - 1;
      assert (a + b)[..|a + b| - 1] == a + b[..n];
      NonEmptyLinesAppend(a, b[..n]);
    }
  }
}
