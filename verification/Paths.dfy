/**
  The scanner of file_util.cpp over a NUL-terminated path, and the directory creation built on
  it. Reading behind the terminator is reported as an outcome of its own.
*/
module Paths {
  import opened PathModel

  const FILE_PATH_SEPARATORS: CString := "/"

  datatype Scan = OutOfBounds | Scanned(components: seq<string>)

  /** The character at an index up to the terminator. */
  function At(path: CString, i: nat): (c: char)
    requires i <= |path|
    ensures c == '\0' <==> i == |path|
  {
    if i < |path| then path[i] else '\0'
  }

  /** The inner loop: where the character is among the separators, or their end. */
  method FindSeparator(separators: CString, ch: char) returns (c: nat)
    ensures c <= |separators|
    ensures c == |separators| <==> ch !in separators
  {
    c := 0;
    while c < |separators| && ch != separators[c]
      invariant c <= |separators|
      invariant ch !in separators[..c]
    {
      c := c + 1;
    }
  }

  /** The first for loop: from the start of a name to the separator behind it, or the end. */
  method FindName(path: CString, separators: CString, from: nat) returns (next: nat)
    requires from <= |path|
    ensures next == from + NameLength(path[from..], separators)
  {
    next := from;
    while true
      invariant from <= next <= |path|
      invariant from + NameLength(path[from..], separators) == next + NameLength(path[next..], separators)
      decreases |path| - next
    {
      var c := FindSeparator(separators, At(path, next));
      if c < |separators| || At(path, next) == '\0' {
        break;
      }
      assert path[next..][1..] == path[next + 1..];
      next := next + 1;
    }
  }

  /** The second for loop: over duplicated separators; it never passes the terminator. */
  method SkipSeparators(path: CString, separators: CString, from: nat) returns (next: nat)
    requires from <= |path|
    ensures next == from + RunLength(path[from..], separators)
  {
    next := from;
    while true
      invariant from <= next <= |path|
      invariant from + RunLength(path[from..], separators) == next + RunLength(path[next..], separators)
      decreases |path| - next
    {
      var c := FindSeparator(separators, At(path, next));
      if c == |separators| {
        break;
      }
      assert path[next..][1..] == path[next + 1..];
      next := next + 1;
    }
  }

  /**
    Finishes inside the path exactly when the path is empty or ends in a separator, and then
    returns its components.
  */
  method ParsePathComponents(path: CString, separators: CString) returns (r: Scan)
    ensures r.Scanned? <==> Splittable(path, separators)
    ensures r.Scanned? ==> r.components == Components(path, separators)
  {
    hide NameLength, RunLength, Splittable, Components;
    var components: seq<string> := [];
    var next := 0;
    assert path[0..] == path;
    while At(path, next) != '\0'
      invariant next <= |path|
      invariant Splittable(path, separators) <==> Splittable(path[next..], separators)
      invariant Splittable(path, separators) ==>
                  components + Components(path[next..], separators) == Components(path, separators)
      decreases |path| - next
    {
      var prev := next;
      next := FindName(path, separators, prev);
      ghost var mid := next;
      components := components + [path[prev..next]];
      if At(path, next) != '\0' {
        ScanStep(path, separators, prev, mid, mid + 1 + RunLength(path[mid + 1..], separators));
        var last := |components| - 1;
        components := components[last := components[last] + [separators[0]]];
      }
      next := next + 1;
      if next > |path| {
        if Splittable(path, separators) {
          NameEnds(path[prev..], separators);
        }
        return OutOfBounds;
      }
      next := SkipSeparators(path, separators, next);
    }
    assert path[next..] == "";
    SplitEmpty(separators);
    r := Scanned(components);
  }

  // ---------- directories ----------

  /** Turns each component into the path up to and including it, in place. */
  method AccumulatePrefixes(subpaths: array<string>)
    requires subpaths.Length > 0
    modifies subpaths
    ensures subpaths[0] == old(subpaths[0])
    ensures forall k :: 0 < k < subpaths.Length ==> subpaths[k] == subpaths[k - 1] + old(subpaths[k])
    ensures forall k :: 0 <= k < subpaths.Length ==> subpaths[k] == Prefix(old(subpaths[..]), k)
  {
    hide Prefix;
    var prev := 0;
    var curr := 1;
    ghost var cs := subpaths[..];
    PrefixGrows(cs, 0);
    while curr != subpaths.Length
      invariant 1 <= curr <= subpaths.Length && prev == curr - 1
      invariant subpaths[0] == cs[0]
      invariant forall k :: 0 < k < curr ==> subpaths[k] == subpaths[k - 1] + cs[k]
      invariant forall k :: 0 <= k < curr ==> subpaths[k] == Prefix(cs, k)
      invariant forall k :: curr <= k < subpaths.Length ==> subpaths[k] == cs[k]
    {
      PrefixGrows(cs, curr);
      subpaths[curr] := subpaths[prev] + subpaths[curr];
      prev := curr;
      curr := curr + 1;
    }
  }

  /**
    The directories of a file system that other processes add to: before system call number n
    the directories others(n) appear. mkdir makes a missing directory if that is permitted, given
    those that are there.
  */
  class FileSystem {
    var dirs: set<string>
    var calls: nat
    const others: nat -> set<string>
    const permitted: (string, set<string>) -> bool

    constructor (dirs: set<string>, others: nat -> set<string>, permitted: (string, set<string>) -> bool)
      ensures this.dirs == dirs && calls == 0 && this.others == others && this.permitted == permitted
    {
      this.dirs := dirs;
      this.calls := 0;
      this.others := others;
      this.permitted := permitted;
    }

    method IsDirectory(p: string) returns (b: bool)
      modifies this
      ensures dirs == old(dirs) + others(old(calls)) && calls == old(calls) + 1
      ensures b <==> p in dirs
    {
      dirs := dirs + others(calls);
      calls := calls + 1;
      b := p in dirs;
    }

    method MkDir(p: string) returns (ok: bool)
      modifies this
      ensures calls == old(calls) + 1
      ensures var seen := old(dirs) + others(old(calls));
              ok == (p !in seen && permitted(p, seen)) && dirs == if ok then seen + {p} else seen
    {
      dirs := dirs + others(calls);
      calls := calls + 1;
      ok := p !in dirs && permitted(p, dirs);
      if ok {
        dirs := dirs + {p};
      }
    }

    /**
      Makes the missing ones among the given directories. Whatever other processes add meanwhile,
      it reports success exactly when all of them are there at the end, and nothing is removed.
    */
    method CreateAll(subpaths: array<string>) returns (ok: bool)
      modifies this
      ensures ok <==> forall k :: 0 <= k < subpaths.Length ==> subpaths[k] in dirs
      ensures old(dirs) <= dirs
      ensures forall p :: p in dirs ==>
                p in old(dirs) || p in subpaths[..] || exists n :: old(calls) <= n < calls && p in others(n)
    {
      for i := 0 to subpaths.Length
        invariant old(dirs) <= dirs && old(calls) <= calls
        invariant forall k :: 0 <= k < i ==> subpaths[k] in dirs
        invariant forall p :: p in dirs ==>
                    p in old(dirs) || p in subpaths[..] || exists n :: old(calls) <= n < calls && p in others(n)
      {
        var there := IsDirectory(subpaths[i]);
        if there {
          continue;
        }
        var made := MkDir(subpaths[i]);
        if made {
          continue;
        }
        there := IsDirectory(subpaths[i]);
        if !there {
          return false;
        }
      }
      ok := true;
    }
  }

  datatype Created = Overrun | Done(ok: bool)

  /**
    Splits the path, accumulates, and creates; an empty path creates nothing and fails. Otherwise
    it reports success exactly when the path with its slash runs collapsed is a directory at
    the end, and so is the text up to each of its slashes. Nothing else is made.
  */
  method CreateDirectory(fs: FileSystem, path: CString) returns (r: Created)
    modifies fs
    ensures r.Done? <==> path == "" || path[|path| - 1] == '/'
    ensures r.Done? ==>
              var t := Collapsed(path, "/", false);
              (r.ok <==> t != "" && forall i :: 0 < i <= |t| && t[i - 1] == '/' ==> t[..i] in fs.dirs)
    ensures old(fs.dirs) <= fs.dirs
    ensures forall p :: p in fs.dirs ==>
              var t := Collapsed(path, "/", false);
              || p in old(fs.dirs) || (exists n :: old(fs.calls) <= n < fs.calls && p in fs.others(n))
              || (0 < |p| <= |t| && p == t[..|p|] && p[|p| - 1] == '/')
  {
    hide Components, Prefix, Collapsed;
    var scan := ParsePathComponents(path, FILE_PATH_SEPARATORS);
    if scan.OutOfBounds? {
      return Overrun;
    }
    var cs := scan.components;
    if cs == [] {
      EmptyPath(path);
      return Done(false);
    }
    SplitEmpty("/");
    var subpaths := new string[|cs|](i requires 0 <= i < |cs| => cs[i]);
    assert subpaths[..] == cs;
    AccumulatePrefixes(subpaths);
    var ok := fs.CreateAll(subpaths);
    assert forall k :: 0 <= k < |cs| ==> Prefix(cs, k) == subpaths[k];
    PrefixesIff(path, "/", fs.dirs);
    PrefixesInText(path, subpaths[..]);
    r := Done(ok);
  }

  lemma {:induction false} EmptyPath(path: CString)
    requires Splittable(path, "/") && Components(path, "/") == []
    ensures path == "" && Collapsed(path, "/", false) == ""
  {
  }

  /** Every prefix is the collapsed path up to one of its slashes. */
  lemma {:induction false} PrefixesInText(path: CString, subpaths: seq<string>)
    requires path != "" && Splittable(path, "/")
    requires |subpaths| == |Components(path, "/")|
    requires forall k :: 0 <= k < |subpaths| ==> Prefix(Components(path, "/"), k) == subpaths[k]
    ensures var t := Collapsed(path, "/", false);
            t != "" && forall p :: p in subpaths ==> 0 < |p| <= |t| && p == t[..|p|] && p[|p| - 1] == '/'
  {
    ComponentsAreWellShaped(path, "/");
    ComponentsCollapse(path, "/");
    forall k | 0 <= k < |subpaths|
      ensures var p, t := subpaths[k], Collapsed(path, "/", false);
              0 < |p| <= |t| && p == t[..|p|] && p[|p| - 1] == '/'
    {
      hide Components, Prefix, Collapsed;
      PrefixInText(Components(path, "/"), "/", k);
    }
  }
}
