/** A directory of numbered files, listed in any order: every file is checked, and the numbers must be 1 to n. */
module NumberedFiles {
  import opened Basics

  /** The files are exactly those numbered 1 to n and hold these values in order. */
  ghost predicate Holds<T>(files: map<nat, T>, s: seq<T>) {
    && (forall n: nat :: n in files <==> 1 <= n <= |s|)
    && (forall n | n in files :: files[n] == s[n - 1])
  }

  function UpTo(k: nat): (s: set<nat>)
    ensures |s| == k && forall n :: n in s <==> 1 <= n <= k
  {
    if k == 0 then {} else UpTo(k - 1) + {k}
  }

  lemma {:induction false} SameSize(a: set<nat>, b: set<nat>)
    requires a <= b && |a| == |b|
    ensures a == b
    decreases |a|
  {
    if a != {} {
      var x :| x in a;
      SameSize(a - {x}, b - {x});
      assert a == (a - {x}) + {x} && b == (b - {x}) + {x};
    } else {
      assert b == {};
    }
  }

  lemma HoldsAll<T>(files: map<nat, T>, s: seq<T>)
    requires Holds(files, s)
    ensures |files| == |s|
  {
    assert files.Keys == UpTo(|s|);
  }

  lemma AllPresent<T>(files: map<nat, T>, s: seq<T>)
    requires |s| == |files| && forall n: nat :: 1 <= n <= |s| ==> n in files && files[n] == s[n - 1]
    ensures Holds(files, s)
  {
    SameSize(UpTo(|s|), files.Keys);
  }

  method CheckAll<T>(files: map<nat, T>, sound: (nat, T) -> bool) returns (ok: bool)
    ensures ok <==> forall n | n in files :: sound(n, files[n])
  {
    var names, done := files.Keys, {};
    while names != {}
      invariant names + done == files.Keys && names !! done
      invariant forall n | n in done :: sound(n, files[n])
      decreases |names|
    {
      var n :| n in names;
      if !sound(n, files[n]) { return false; }
      done := done + {n};
      names := names - {n};
    }
    assert done == files.Keys;
    return true;
  }

  /** Read a directory: refuse an unsound file or a gap in the numbers. */
  method ReadNumbered<T>(files: map<nat, T>, sound: (nat, T) -> bool) returns (r: Option<seq<T>>)
    ensures r.Some? ==> Holds(files, r.value)
    ensures r.Some? <==> (exists s :: Holds(files, s)) && forall n | n in files :: sound(n, files[n])
  {
    var ok := CheckAll(files, sound);
    if !ok { return None; }
    var s: seq<T> := [];
    while |s| < |files|
      invariant |s| <= |files|
      invariant forall n: nat :: 1 <= n <= |s| ==> n in files && files[n] == s[n - 1]
    {
      if |s| + 1 !in files {
        forall t ensures !Holds(files, t) {
          if Holds(files, t) { HoldsAll(files, t); }
        }
        return None;
      }
      s := s + [files[|s| + 1]];
    }
    AllPresent(files, s);
    return Some(s);
  }

  /** A directory holds one sequence at most. */
  lemma HoldsUnique<T>(files: map<nat, T>, s: seq<T>, t: seq<T>)
    requires Holds(files, s) && Holds(files, t)
    ensures s == t
  {
    HoldsAll(files, s);
    HoldsAll(files, t);
    forall i | 0 <= i < |s| ensures s[i] == t[i] { assert i + 1 in files; }
  }

  /** Creating the next file appends its value; the number is free. */
  lemma HoldsAppend<T>(files: map<nat, T>, s: seq<T>, v: T)
    requires Holds(files, s)
    ensures |s| + 1 !in files && Holds(files[|s| + 1 := v], s + [v])
  {
  }
}
