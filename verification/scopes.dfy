/**
 Scope lists: `split_scopes` and `check_scopes` (token_utils.c:173-246).
 */
module Scopes {

  import opened StrOrder

  /** A scope as `strtok(str, " ")` yields it: non-empty and free of spaces. */
  predicate IsScope(t: string) {
    |t| > 0 && ' ' !in t
  }

  /** Number of leading characters before the first space (or the end). */
  function RunLength(s: string): (n: nat)
    ensures n <= |s|
    ensures ' ' !in s[..n]
    ensures n < |s| ==> s[n] == ' '
  {
    if s == [] || s[0] == ' ' then 0
    else
      var n := 1 + RunLength(s[1..]);
      assert s[..n] == [s[0]] + s[1..][..n - 1];
      n
  }

  /**
   `split_scopes`: the maximal runs of non-space characters, in input order.
   Only `' '` separates; tabs and other characters belong to the scopes.
   */
  function SplitScopes(raw: string): (scopes: seq<string>)
    ensures forall i :: 0 <= i < |scopes| ==> IsScope(scopes[i])
    ensures scopes == [] <==> forall i :: 0 <= i < |raw| ==> raw[i] == ' '
    decreases |raw|
  {
    if raw == [] then []
    else if raw[0] == ' ' then
      var rest := SplitScopes(raw[1..]);
      assert (forall i :: 0 <= i < |raw| ==> raw[i] == ' ')
         <==> (forall i :: 0 <= i < |raw[1..]| ==> raw[1..][i] == ' ');
      rest
    else
      var n := RunLength(raw);
      [raw[..n]] + SplitScopes(raw[n..])
  }

  /** The scopes joined by single spaces. */
  function Join(scopes: seq<string>): string {
    if |scopes| == 0 then ""
    else if |scopes| == 1 then scopes[0]
    else scopes[0] + " " + Join(scopes[1..])
  }

  /** `Join` of a non-empty list preceded by a space; nothing for the empty list. */
  function JoinTail(scopes: seq<string>): string {
    if scopes == [] then "" else " " + Join(scopes)
  }

  /**
   The input with leading and trailing spaces removed and every inner run of
   spaces squeezed to one, written character by character: `emitted` says a
   non-space has been output, `gap` that a space was read since the last one.
   */
  function Squeeze(s: string, emitted: bool, gap: bool): string {
    if s == [] then ""
    else if s[0] == ' ' then Squeeze(s[1..], emitted, true)
    else (if emitted && gap then " " else "") + [s[0]] + Squeeze(s[1..], true, false)
  }

  function Normalize(s: string): string {
    Squeeze(s, false, false)
  }

  /** Reading a non-space emits the pending separator, then continues as after output. */
  lemma SqueezeLead(s: string, emitted: bool, gap: bool)
    requires s != [] && s[0] != ' '
    ensures Squeeze(s, emitted, gap) == (if emitted && gap then " " else "") + Squeeze(s, true, false)
  {
    var rest := Squeeze(s[1..], true, false);
    assert Squeeze(s, true, false) == "" + [s[0]] + rest;
    if emitted && gap {
      assert Squeeze(s, emitted, gap) == " " + [s[0]] + rest;
    } else {
      assert Squeeze(s, emitted, gap) == "" + [s[0]] + rest;
    }
  }

  /** After output, a run of non-spaces comes out unchanged, with nothing before it. */
  lemma {:induction false} SqueezeRun(t: string)
    ensures Squeeze(t, true, false) == t[..RunLength(t)] + Squeeze(t[RunLength(t)..], true, false)
    decreases |t|
  {
    if t != [] && t[0] != ' ' {
      var u := t[1..];
      SqueezeRun(u);
      var m := RunLength(u);
      assert Squeeze(t, true, false) == [t[0]] + Squeeze(u, true, false);
      assert t[..m + 1] == [t[0]] + u[..m];
      assert u[m..] == t[m + 1..];
    }
  }

  /** Once something has been output and a space read, the rest comes out as `JoinTail`. */
  lemma {:induction false} SqueezeAfterGap(u: string)
    ensures Squeeze(u, true, true) == JoinTail(SplitScopes(u))
    decreases |u|
  {
    if u == [] {
    } else if u[0] == ' ' {
      SqueezeAfterGap(u[1..]);
    } else {
      var n := RunLength(u);
      SqueezeLead(u, true, true);
      SqueezeRun(u);
      var rest := SplitScopes(u[n..]);
      assert SplitScopes(u) == [u[..n]] + rest;
      if n < |u| {
        assert u[n..][1..] == u[n + 1..];
        SqueezeAfterGap(u[n + 1..]);
        assert Squeeze(u[n..], true, false) == JoinTail(rest);
      } else {
        assert u[n..] == [];
      }
      assert ([u[..n]] + rest)[1..] == rest;
    }
  }

  /**
   `split_scopes` keeps the input's non-space runs in order: joining them with
   single spaces gives back the input trimmed with inner space runs collapsed.
   */
  lemma {:induction false} JoinSplitIsNormalize(s: string)
    ensures Join(SplitScopes(s)) == Normalize(s)
  {
    JoinSplitSqueeze(s, false);
  }

  lemma {:induction false} JoinSplitSqueeze(s: string, gap: bool)
    ensures Join(SplitScopes(s)) == Squeeze(s, false, gap)
    decreases |s|
  {
    if s == [] {
    } else if s[0] == ' ' {
      JoinSplitSqueeze(s[1..], true);
    } else {
      var n := RunLength(s);
      SqueezeLead(s, false, gap);
      SqueezeRun(s);
      var rest := SplitScopes(s[n..]);
      assert SplitScopes(s) == [s[..n]] + rest;
      if n < |s| {
        assert s[n..][1..] == s[n + 1..];
        SqueezeAfterGap(s[n + 1..]);
      } else {
        assert s[n..] == [];
      }
      assert ([s[..n]] + rest)[1..] == rest;
    }
  }

  lemma {:induction false} RunLengthOfScope(t: string, rest: string)
    requires ' ' !in t
    ensures RunLength(t + rest) == |t| + RunLength(rest)
    decreases |t|
  {
    if t != [] {
      assert (t + rest)[1..] == t[1..] + rest;
      RunLengthOfScope(t[1..], rest);
    } else {
      assert t + rest == rest;
    }
  }

  /** A scope followed by a space splits off as the first scope. */
  lemma SplitScopeThenSpace(t: string, rest: string)
    requires IsScope(t)
    ensures SplitScopes(t + " " + rest) == [t] + SplitScopes(rest)
  {
    var s := t + " " + rest;
    RunLengthOfScope(t, " " + rest);
    assert s == t + (" " + rest);
    assert s[..|t|] == t;
    assert s[|t|..] == " " + rest;
    assert s[|t|..][1..] == rest;
  }

  /** Splitting the single-space join of proper scopes gives the same scopes back. */
  lemma {:induction false} SplitJoinRoundTrip(scopes: seq<string>)
    requires forall i :: 0 <= i < |scopes| ==> IsScope(scopes[i])
    ensures SplitScopes(Join(scopes)) == scopes
    decreases |scopes|
  {
    if |scopes| == 1 {
      var t := scopes[0];
      RunLengthOfScope(t, "");
      assert t + "" == t;
      assert t[|t|..] == [];
    } else if |scopes| > 1 {
      SplitScopeThenSpace(scopes[0], Join(scopes[1..]));
      SplitJoinRoundTrip(scopes[1..]);
      assert scopes == [scopes[0]] + scopes[1..];
    }
  }

  /**
   The merge walk of token_utils.c:214-245 over two sorted lists: equal heads
   advance both, a smaller granted head advances granted alone, a smaller
   required head means failure; a required list left over also means failure.
   */
  function MergeWalk(granted: seq<string>, required: seq<string>): bool
    decreases |granted|
  {
    if required != [] && granted != [] then
      var cmp := StrCmp(required[0], granted[0]);
      if cmp == 0 then MergeWalk(granted[1..], required[1..])
      else if cmp > 0 then MergeWalk(granted[1..], required)
      else false
    else required == []
  }

  lemma MultisetCancel<T>(a: multiset<T>, b: multiset<T>, x: T)
    ensures a + multiset{x} <= b + multiset{x} <==> a <= b
  {
    if a + multiset{x} <= b + multiset{x} {
      forall y
        ensures a[y] <= b[y]
      {
        assert (a + multiset{x})[y] <= (b + multiset{x})[y];
      }
    }
  }

  lemma MultisetDropAbsent<T>(a: multiset<T>, b: multiset<T>, x: T)
    requires a[x] == 0
    ensures a <= b + multiset{x} <==> a <= b
  {
    if a <= b + multiset{x} {
      forall y
        ensures a[y] <= b[y]
      {
        assert a[y] <= (b + multiset{x})[y];
      }
    }
  }

  /** On sorted lists the walk decides multiset inclusion of `required` in `granted`. */
  lemma {:induction false} MergeWalkDecidesInclusion(granted: seq<string>, required: seq<string>)
    requires Sorted(granted) && Sorted(required)
    ensures MergeWalk(granted, required) <==> multiset(required) <= multiset(granted)
    decreases |granted|
  {
    if required != [] && granted != [] {
      var r, g := required[0], granted[0];
      assert granted == [g] + granted[1..];
      assert multiset(granted) == multiset(granted[1..]) + multiset{g};
      var cmp := StrCmp(r, g);
      if cmp == 0 {
        assert required == [r] + required[1..];
        assert multiset(required) == multiset(required[1..]) + multiset{r};
        MergeWalkDecidesInclusion(granted[1..], required[1..]);
        MultisetCancel(multiset(required[1..]), multiset(granted[1..]), r);
      } else if cmp > 0 {
        MergeWalkDecidesInclusion(granted[1..], required);
        StrCmpAntisymmetric(r, g);
        BelowHeadAbsent(g, required);
        MultisetDropAbsent(multiset(required), multiset(granted[1..]), g);
      } else {
        BelowHeadAbsent(r, granted);
        assert multiset(required)[r] > 0;
      }
    } else if required != [] {
      assert multiset(required)[required[0]] > 0;
    }
  }

  /**
   `check_scopes`: sort both lists by `strcmp` and walk them. True exactly when
   every required scope occurs in the granted list at least as many times.
   */
  function CheckScopes(granted: seq<string>, required: seq<string>): (ok: bool)
    ensures ok <==> multiset(required) <= multiset(granted)
  {
    var g, r := Sort(granted), Sort(required);
    MergeWalkDecidesInclusion(g, r);
    MergeWalk(g, r)
  }

  /** Adding granted scopes or dropping required ones never turns acceptance into refusal. */
  lemma CheckScopesMonotone(granted: seq<string>, more: seq<string>, required: seq<string>, fewer: seq<string>)
    requires multiset(fewer) <= multiset(required)
    requires CheckScopes(granted, required)
    ensures CheckScopes(granted + more, fewer)
  {
  }

  /** Only the contents of the two lists matter, not their order. */
  lemma CheckScopesOrderIndependent(g1: seq<string>, g2: seq<string>, r1: seq<string>, r2: seq<string>)
    requires multiset(g1) == multiset(g2) && multiset(r1) == multiset(r2)
    ensures CheckScopes(g1, r1) == CheckScopes(g2, r2)
  {
  }

  /** A scope required twice must be granted twice: `"a a"` against `"a"` is refused. */
  lemma RepeatedRequirementNeedsRepeatedGrant()
    ensures !CheckScopes(["a"], ["a", "a"])
    ensures CheckScopes(["a", "a"], ["a", "a"])
  {
    assert multiset(["a", "a"])["a"] == 2;
    assert multiset(["a"])["a"] == 1;
  }
}
