/** Repeated calls of the env rewriter with the same values. */
module EnvFileRuns {
  import opened EnvFile

  // The next rewrite will be read back as wanted, the one after it, or none is needed.
  ghost function Rank(content: string, want: Want): nat {
    if Current(Lines(content), want) == want then 0 else if SafeEnd(content, want) then 1 else 2
  }

  lemma {:induction false} ConcatEnds(lines: seq<string>)
    requires lines != [] && Terminated(lines[|lines| - 1])
    ensures Terminated(Concat(lines))
  {
    if |lines| > 1 {
      ConcatEnds(lines[1..]);
    } else {
      assert Concat(lines[1..]) == "";
      assert Concat(lines) == lines[0];
    }
  }

  lemma {:induction false} AppendedEnds(content: string, want: Want, order: seq<string>)
    requires IsOrder(order, Lines(content), want) && order != []
    ensures Terminated(Concat(Rewritten(Lines(content), want, order)))
  {
    hide Terminated, KeyOfLine, EnvLine, ReadValue, IsLine;
    var lines := Lines(content);
    var out := Rewritten(lines, want, order);
    RewrittenLine(lines, want, order, |out| - 1);
    ConcatEnds(out);
  }

  /** Whatever the file's end was, it is safe after one rewrite. */
  lemma {:induction false} EndSafeAfter(content: string, want: Want, order: seq<string>)
    requires IsOrder(order, Lines(content), want)
    ensures SafeEnd(Concat(Rewritten(Lines(content), want, order)), want)
  {
    hide KeyOfLine, EnvLine, ReadValue, IsLine, Lines, Rewritten, IsOrder, LastManaged, Terminated;
    if SafeEnd(content, want) {
      RewrittenLined(content, want, order);
      LinesOfConcat(Rewritten(Lines(content), want, order));
      forall k | k in want ensures HasKey(Rewritten(Lines(content), want, order), k, want) {
        RewrittenHasKey(Lines(content), want, order, k);
      }
    } else {
      MergedLineLoses(content, want, order);
      AppendedEnds(content, want, order);
    }
  }

  lemma {:induction false} RankFalls(before: string, after: string, restarts: nat, want: Want)
    requires Called(before, after, restarts, want)
    ensures Rank(after, want) + restarts <= Rank(before, want)
  {
    hide Current, Lines, Rewritten, IsOrder, SafeEnd, Concat;
    if restarts == 1 {
      var order :| Rewrites(before, after, want, order);
      RewriteConvergesExactlyWhen(before, want, order);
      EndSafeAfter(before, want, order);
    }
  }

  function Total(restarts: seq<nat>): nat {
    if restarts == [] then 0 else restarts[0] + Total(restarts[1..])
  }

  // The i-th call took the i-th text to the next one.
  ghost predicate Calls(contents: seq<string>, restarts: seq<nat>, want: Want) {
    |contents| == |restarts| + 1 &&
    forall i :: 0 <= i < |restarts| ==> Called(contents[i], contents[i + 1], restarts[i], want)
  }

  /** Any number of calls with the same values restart the container at most twice, and at most once when the file's end
      is safe to begin with, whatever order missing keys are appended in and whichever calls fail to read or write. */
  lemma {:induction false} RestartsAtMostTwice(contents: seq<string>, restarts: seq<nat>, want: Want)
    requires Calls(contents, restarts, want)
    ensures Total(restarts) <= 2
    ensures SafeEnd(contents[0], want) ==> Total(restarts) <= 1
    ensures Current(Lines(contents[0]), want) == want ==> Total(restarts) == 0
  {
    hide Called, Current, SafeEnd, Lines;
    TotalBelowRank(contents, restarts, want);
  }

  lemma {:induction false} TotalBelowRank(contents: seq<string>, restarts: seq<nat>, want: Want)
    requires Calls(contents, restarts, want)
    ensures Total(restarts) <= Rank(contents[0], want)
    decreases |restarts|
  {
    hide Called, Rank;
    if restarts != [] {
      RankFalls(contents[0], contents[1], restarts[0], want);
      TotalBelowRank(contents[1..], restarts[1..], want);
    }
  }
}
