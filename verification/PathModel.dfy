/**
  The components of a path: each name up to a separator, with the first separator character put
  behind it, and runs of separators collapsed. Paths and separator sets are C strings.
*/
module PathModel {

  type CString = s: string | '\0' !in s

  /** The length of the name at the front. */
  function NameLength(s: string, seps: string): (n: nat)
    ensures n <= |s|
    ensures n < |s| ==> s[n] in seps
  {
    if s == "" || s[0] in seps then 0 else 1 + NameLength(s[1..], seps)
  }

  /** The length of the run of separators at the front. */
  function RunLength(s: string, seps: string): (n: nat)
    ensures n <= |s|
    ensures n < |s| ==> s[n] !in seps
  {
    if s == "" || s[0] !in seps then 0 else 1 + RunLength(s[1..], seps)
  }

  /** The paths the scanner can finish: empty, or ending in a separator. */
  predicate Splittable(s: string, seps: string) {
    s == "" || s[|s| - 1] in seps
  }

  lemma {:induction false} NameEnds(s: string, seps: string)
    requires Splittable(s, seps) && s != ""
    ensures NameLength(s, seps) < |s|
  {
    if s[0] !in seps {
      NameEnds(s[1..], seps);
    }
  }

  lemma {:induction false} RunIsSeparators(s: string, seps: string, i: nat)
    requires i < RunLength(s, seps)
    ensures s[i] in seps
  {
    if i > 0 {
      RunIsSeparators(s[1..], seps, i - 1);
    }
  }

  lemma {:induction false} LastOfTail(s: string, i: nat)
    requires i <= |s|
    ensures i < |s| ==> s[i..] != "" && s[i..][|s[i..]| - 1] == s[|s| - 1]
  {
  }

  /** Taking off a name and the separators behind it does not change how the path ends. */
  lemma {:induction false} SplittableBehind(s: string, seps: string)
    requires NameLength(s, seps) < |s|
    ensures var behind := s[NameLength(s, seps) + 1..];
            Splittable(s, seps) <==> Splittable(behind[RunLength(behind, seps)..], seps)
  {
    var behind := s[NameLength(s, seps) + 1..];
    hide NameLength, RunLength;
    var run := RunLength(behind, seps);
    LastOfTail(s, NameLength(s, seps));
    LastOfTail(s, NameLength(s, seps) + 1);
    LastOfTail(behind, run);
    if run == |behind| && behind != "" {
      RunIsSeparators(behind, seps, run - 1);
    }
  }

  /** What is left behind the first name and the separators that follow it. */
  function Rest(s: string, seps: string): (t: string)
    requires Splittable(s, seps) && s != ""
    ensures |t| < |s| && Splittable(t, seps)
    ensures t == "" || t[0] !in seps
  {
    NameEnds(s, seps);
    var behind := s[NameLength(s, seps) + 1..];
    behind[RunLength(behind, seps)..]
  }

  function Components(s: string, seps: string): seq<string>
    requires Splittable(s, seps)
    decreases |s|
  {
    if s == "" then []
    else [s[..NameLength(s, seps)] + [seps[0]]] + Components(Rest(s, seps), seps)
  }

  lemma {:induction false} SplitEmpty(seps: string)
    ensures Splittable("", seps) && Components("", seps) == []
  {
  }

  /** One turn of a scan at index prev, whose name ends before mid and separators before next. */
  lemma {:induction false} ScanStep(path: string, seps: string, prev: nat, mid: nat, next: nat)
    requires prev < |path| && mid == prev + NameLength(path[prev..], seps) < |path|
    requires next == mid + 1 + RunLength(path[mid + 1..], seps)
    ensures next <= |path| && path[mid] in seps
    ensures Splittable(path[prev..], seps) <==> Splittable(path[next..], seps)
    ensures Splittable(path[prev..], seps) ==>
              Components(path[prev..], seps) == [path[prev..mid] + [seps[0]]] + Components(path[next..], seps)
  {
    hide NameLength, RunLength, Components, Splittable;
    var s := path[prev..];
    SplittableBehind(s, seps);
    assert s[NameLength(s, seps) + 1..] == path[mid + 1..];
    assert path[mid + 1..][RunLength(path[mid + 1..], seps)..] == path[next..];
    assert s[..NameLength(s, seps)] == path[prev..mid];
    if Splittable(s, seps) {
      FirstComponent(s, seps);
    }
  }

  lemma {:induction false} FirstComponent(s: string, seps: string)
    requires Splittable(s, seps) && s != ""
    ensures NameLength(s, seps) < |s|
    ensures var behind := s[NameLength(s, seps) + 1..];
            && Splittable(behind[RunLength(behind, seps)..], seps)
            && Components(s, seps) == [s[..NameLength(s, seps)] + [seps[0]]]
                                      + Components(behind[RunLength(behind, seps)..], seps)
  {
    hide NameLength, RunLength;
    NameEnds(s, seps);
    var rest := Rest(s, seps);
  }

  // ---------- what the components are ----------

  function Concat(cs: seq<string>): string {
    if cs == [] then "" else cs[0] + Concat(cs[1..])
  }

  /** The first k + 1 components put together. */
  function Prefix(cs: seq<string>, k: nat): string
    requires k < |cs|
  {
    Concat(cs[..k + 1])
  }

  lemma {:induction false} ConcatSnoc(cs: seq<string>, c: string)
    ensures Concat(cs + [c]) == Concat(cs) + c
  {
    if cs == [] {
      assert (cs + [c])[1..] == [];
    } else {
      assert (cs + [c])[1..] == cs[1..] + [c];
      ConcatSnoc(cs[1..], c);
    }
  }

  /** Each prefix is the one before it and the next component. */
  lemma {:induction false} PrefixGrows(cs: seq<string>, k: nat)
    requires k < |cs|
    ensures Prefix(cs, k) == if k == 0 then cs[0] else Prefix(cs, k - 1) + cs[k]
  {
    assert cs[..k + 1] == cs[..k] + [cs[k]];
    ConcatSnoc(cs[..k], cs[k]);
    if k == 0 {
      assert cs[..0] == [];
    }
  }

  /** The path with every run of separators replaced by the first separator. */
  function Collapsed(s: string, seps: string, afterSeparator: bool): string {
    if s == "" then ""
    else if s[0] in seps then
      (if afterSeparator then "" else [seps[0]]) + Collapsed(s[1..], seps, true)
    else [s[0]] + Collapsed(s[1..], seps, false)
  }

  /** A name without separators, then the first separator, and nothing behind it. */
  predicate Component(c: string, seps: string) {
    seps != "" && c != "" && c[|c| - 1] == seps[0]
    && forall i :: 0 <= i < |c| - 1 ==> c[i] !in seps
  }

  /** Only the first component may be a bare separator. */
  predicate WellShaped(cs: seq<string>, seps: string) {
    (forall k :: 0 <= k < |cs| ==> Component(cs[k], seps))
    && forall k :: 1 <= k < |cs| ==> |cs[k]| >= 2
  }

  lemma {:induction false} NameHasNoSeparator(s: string, seps: string, i: nat)
    requires i < NameLength(s, seps)
    ensures s[i] !in seps
  {
    if i > 0 {
      NameHasNoSeparator(s[1..], seps, i - 1);
    }
  }

  lemma {:induction false} NameIsComponent(s: string, seps: string)
    requires NameLength(s, seps) < |s|
    ensures seps != "" && Component(s[..NameLength(s, seps)] + [seps[0]], seps)
  {
    hide NameLength;
    var c := s[..NameLength(s, seps)] + [seps[0]];
    forall i | 0 <= i < |c| - 1
      ensures c[i] !in seps
    {
      NameHasNoSeparator(s, seps, i);
    }
  }

  lemma {:induction false} ComponentsAreWellShaped(s: string, seps: string)
    requires Splittable(s, seps)
    ensures WellShaped(Components(s, seps), seps)
    ensures s != "" && s[0] !in seps ==> |Components(s, seps)[0]| >= 2
    decreases |s|
  {
    hide Splittable, Component, Rest;
    if s != "" {
      NameEnds(s, seps);
      NameIsComponent(s, seps);
      var rest := Rest(s, seps);
      ComponentsAreWellShaped(rest, seps);
      assert Components(s, seps)[1..] == Components(rest, seps);
    }
  }

  lemma {:induction false} CollapsedName(s: string, seps: string, after: bool)
    requires after ==> s != "" && s[0] !in seps
    ensures Collapsed(s, seps, after)
         == s[..NameLength(s, seps)] + Collapsed(s[NameLength(s, seps)..], seps, false)
  {
    if s == "" || s[0] in seps {
      assert s[0..] == s;
    } else {
      CollapsedName(s[1..], seps, false);
      assert s[1..][NameLength(s[1..], seps)..] == s[NameLength(s, seps)..];
      assert s[..NameLength(s, seps)] == [s[0]] + s[1..][..NameLength(s[1..], seps)];
    }
  }

  lemma {:induction false} CollapsedRun(s: string, seps: string)
    ensures Collapsed(s, seps, true) == Collapsed(s[RunLength(s, seps)..], seps, false)
  {
    if s == "" || s[0] !in seps {
      assert s[0..] == s;
    } else {
      CollapsedRun(s[1..], seps);
      assert s[1..][RunLength(s[1..], seps)..] == s[RunLength(s, seps)..];
    }
  }

  /** Put together again, the components are the path with its separator runs collapsed. */
  lemma {:induction false} ComponentsCollapse(s: string, seps: string)
    requires Splittable(s, seps)
    ensures Concat(Components(s, seps)) == Collapsed(s, seps, false)
    decreases |s|
  {
    if s != "" {
      NameEnds(s, seps);
      var n := NameLength(s, seps);
      var cs := Components(s, seps);
      assert cs[1..] == Components(Rest(s, seps), seps);
      ComponentsCollapse(Rest(s, seps), seps);
      CollapsedName(s, seps, false);
      assert s[n..][1..] == s[n + 1..];
      CollapsedRun(s[n + 1..], seps);
    }
  }

  lemma {:induction false} NameOfComponent(c: string, rest: string, seps: string)
    requires Component(c, seps)
    ensures NameLength(c + rest, seps) == |c| - 1
  {
    assert (c + rest)[0] == c[0];
    if |c| > 1 {
      assert (c + rest)[1..] == c[1..] + rest;
      NameOfComponent(c[1..], rest, seps);
    } else {
      assert seps[0] in seps;
    }
  }

  lemma {:induction false} ConcatSplittable(cs: seq<string>, seps: string)
    requires WellShaped(cs, seps)
    ensures Splittable(Concat(cs), seps)
    ensures cs != [] ==> Concat(cs) != "" && Concat(cs)[0] == cs[0][0]
  {
    if cs != [] {
      ConcatSplittable(cs[1..], seps);
      assert cs[0][|cs[0]| - 1] in seps;
    }
  }

  lemma {:induction false} FrontComponent(c: string, rest: string, seps: string)
    requires Component(c, seps) && Splittable(rest, seps) && (rest != "" ==> rest[0] !in seps)
    ensures Splittable(c + rest, seps)
    ensures Components(c + rest, seps) == [c] + Components(rest, seps)
  {
    hide NameLength;
    var s := c + rest;
    assert c[|c| - 1] in seps;
    NameOfComponent(c, rest, seps);
    assert s[|c|..] == rest && s[..|c| - 1] + [seps[0]] == c;
    assert RunLength(rest, seps) == 0;
    assert Rest(s, seps) == rest;
  }

  /** Splitting inverts putting together: a well-shaped list is the only one with its text. */
  lemma {:induction false} SplitConcat(cs: seq<string>, seps: string)
    requires WellShaped(cs, seps)
    ensures Splittable(Concat(cs), seps) && Components(Concat(cs), seps) == cs
  {
    hide Components, Splittable;
    if cs == [] {
      SplitEmpty(seps);
    } else {
      var rest := Concat(cs[1..]);
      ConcatSplittable(cs[1..], seps);
      SplitConcat(cs[1..], seps);
      if rest != "" {
        assert |cs[1]| >= 2 && cs[1][0] !in seps;
      }
      FrontComponent(cs[0], rest, seps);
    }
  }

  /** Splitting what was put together changes nothing more. */
  lemma {:induction false} ResplitIsStable(s: string, seps: string)
    requires Splittable(s, seps)
    ensures Splittable(Collapsed(s, seps, false), seps)
    ensures Components(Collapsed(s, seps, false), seps) == Components(s, seps)
  {
    ComponentsAreWellShaped(s, seps);
    ComponentsCollapse(s, seps);
    SplitConcat(Components(s, seps), seps);
  }

  /** Two paths have the same components exactly when they collapse to the same text. */
  lemma {:induction false} SameComponentsIff(s: string, t: string, seps: string)
    requires Splittable(s, seps) && Splittable(t, seps)
    ensures Components(s, seps) == Components(t, seps)
       <==> Collapsed(s, seps, false) == Collapsed(t, seps, false)
  {
    ComponentsCollapse(s, seps);
    ComponentsCollapse(t, seps);
    ResplitIsStable(s, seps);
    ResplitIsStable(t, seps);
  }

  // ---------- what collapsing is, as a normal form ----------

  /** Only the first separator occurs, and never twice in a row. */
  predicate Normal(s: string, seps: string) {
    seps != ""
    && (forall i :: 0 <= i < |s| && s[i] in seps ==> s[i] == seps[0])
    && forall i :: 0 < i < |s| ==> s[i - 1] !in seps || s[i] !in seps
  }

  lemma {:induction false} CollapsedStart(s: string, seps: string)
    ensures var c := Collapsed(s, seps, true);
            c != "" ==> c[0] !in seps
  {
    if s != "" && s[0] in seps {
      CollapsedStart(s[1..], seps);
    }
  }

  lemma {:induction false} CollapsedIsNormal(s: string, seps: string, after: bool)
    requires seps != ""
    ensures Normal(Collapsed(s, seps, after), seps)
  {
    if s != "" {
      CollapsedIsNormal(s[1..], seps, s[0] in seps);
      CollapsedStart(s[1..], seps);
    }
  }

  lemma {:induction false} NormalIsCollapsed(s: string, seps: string, after: bool)
    requires Normal(s, seps) && (after && s != "" ==> s[0] !in seps)
    ensures Collapsed(s, seps, after) == s
  {
    if s != "" {
      var rest := s[1..];
      assert forall i :: 0 <= i < |rest| ==> rest[i] == s[i + 1];
      NormalIsCollapsed(rest, seps, s[0] in seps);
    }
  }

  /** One separator instead of another, or instead of two: what does not matter to the path. */
  predicate Respelled(s: string, t: string, seps: string, at: nat, n: nat) {
    seps != "" && 1 <= n <= 2 && at + n <= |s|
    && (forall i :: at <= i < at + n ==> s[i] in seps)
    && t == s[..at] + [seps[0]] + s[at + n..]
  }

  lemma {:induction false} RespelledCollapses(s: string, t: string, seps: string, at: nat, n: nat, after: bool)
    requires Respelled(s, t, seps, at, n)
    ensures Collapsed(s, seps, after) == Collapsed(t, seps, after)
  {
    if at == 0 {
      assert t[1..] == s[n..];
      if n == 2 {
        assert s[1..][1..] == s[2..];
      }
    } else {
      assert s[1..][..at - 1] == s[..at][1..] && s[1..][at - 1 + n..] == s[at + n..];
      assert t[1..] == s[1..][..at - 1] + [seps[0]] + s[1..][at - 1 + n..];
      RespelledCollapses(s[1..], t[1..], seps, at - 1, n, s[0] in seps);
    }
  }

  /**
    The collapsed path is the normal form under these respellings: it is normal, equal for a path
    and its respelling, and a normal path is its own.
  */
  lemma {:induction false} CollapsedIsNormalForm(s: string, seps: string)
    requires seps != ""
    ensures Normal(Collapsed(s, seps, false), seps)
    ensures Normal(s, seps) ==> Collapsed(s, seps, false) == s
    ensures forall t, at: nat, n: nat :: Respelled(s, t, seps, at, n) ==>
              Collapsed(t, seps, false) == Collapsed(s, seps, false)
  {
    CollapsedIsNormal(s, seps, false);
    if Normal(s, seps) {
      NormalIsCollapsed(s, seps, false);
    }
    forall t, at: nat, n: nat | Respelled(s, t, seps, at, n)
      ensures Collapsed(t, seps, false) == Collapsed(s, seps, false)
    {
      RespelledCollapses(s, t, seps, at, n, false);
    }
  }

  // ---------- prefixes in the text ----------

  /** The text up to a separator is one of the prefixes. */
  lemma {:induction false} TextPrefix(cs: seq<string>, seps: string, i: nat) returns (k: nat)
    requires WellShaped(cs, seps) && 0 < i <= |Concat(cs)| && Concat(cs)[i - 1] in seps
    ensures k < |cs| && Concat(cs)[..i] == Prefix(cs, k)
  {
    var c, rest := cs[0], Concat(cs[1..]);
    assert Component(c, seps);
    if i <= |c| {
      k := 0;
      PrefixGrows(cs, 0);
    } else {
      var j := TextPrefix(cs[1..], seps, i - |c|);
      k := j + 1;
      assert cs[..k + 1][1..] == cs[1..][..j + 1];
      assert Concat(cs)[..i] == c + rest[..i - |c|];
    }
  }

  /** And each prefix is the text up to a separator. */
  lemma {:induction false} PrefixInText(cs: seq<string>, seps: string, k: nat)
    requires WellShaped(cs, seps) && k < |cs|
    ensures var n := |Prefix(cs, k)|;
            0 < n <= |Concat(cs)| && Concat(cs)[n - 1] == seps[0] && Concat(cs)[..n] == Prefix(cs, k)
  {
    var c, rest := cs[0], Concat(cs[1..]);
    assert Component(c, seps);
    if k == 0 {
      PrefixGrows(cs, 0);
    } else {
      PrefixInText(cs[1..], seps, k - 1);
      assert cs[..k + 1][1..] == cs[1..][..k];
      assert Prefix(cs, k) == c + Prefix(cs[1..], k - 1);
    }
  }

  /** All prefixes of the components are in a set exactly when the text up to every separator is. */
  lemma {:induction false} PrefixesIff(s: string, seps: string, dirs: set<string>)
    requires Splittable(s, seps) && s != ""
    ensures var cs, t := Components(s, seps), Collapsed(s, seps, false);
            (forall k :: 0 <= k < |cs| ==> Prefix(cs, k) in dirs)
            <==> forall i :: 0 < i <= |t| && t[i - 1] in seps ==> t[..i] in dirs
  {
    hide Components, Prefix, Concat, Collapsed;
    var cs, t := Components(s, seps), Collapsed(s, seps, false);
    ComponentsAreWellShaped(s, seps);
    ComponentsCollapse(s, seps);
    if forall k :: 0 <= k < |cs| ==> Prefix(cs, k) in dirs {
      forall i | 0 < i <= |t| && t[i - 1] in seps
        ensures t[..i] in dirs
      {
        var k := TextPrefix(cs, seps, i);
      }
    }
    if forall i :: 0 < i <= |t| && t[i - 1] in seps ==> t[..i] in dirs {
      forall k | 0 <= k < |cs|
        ensures Prefix(cs, k) in dirs
      {
        PrefixInText(cs, seps, k);
        var n := |Prefix(cs, k)|;
        assert t[n - 1] in seps && t[..n] == Prefix(cs, k);
      }
    }
  }
}
