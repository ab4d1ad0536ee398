/** Path strings and what they mean: a drive digit and '/'-separated components (path_parser.c). */
module Paths {
  import opened Words

  const SLASH: byte := 47
  const COLON: byte := 58

  /** pathparser_is_path_valid on a string of at most 256 characters. */
  predicate IsPathValid(path: seq<byte>) {
    |path| >= 3 && 48 <= path[0] <= 57 && path[1] == COLON && path[2] == SLASH
  }

  /** Length of the component at the start of s. */
  function PartLength(s: seq<byte>): (n: nat)
    ensures n <= |s| && (n < |s| ==> s[n] == SLASH) && forall i :: 0 <= i < n ==> s[i] != SLASH
  {
    if s == [] || s[0] == SLASH then 0 else 1 + PartLength(s[1..])
  }

  /** What follows the component and its slash. */
  function AfterPart(s: seq<byte>): (r: seq<byte>)
    ensures |r| <= |s| && (s != [] ==> |r| < |s|)
  {
    var n := PartLength(s);
    if n < |s| then s[n + 1..] else s[n..]
  }

  /** The components the parser takes: up to the first empty one. */
  function Parts(s: seq<byte>): seq<seq<byte>> {
    var n := PartLength(s);
    if n == 0 then [] else [s[..n]] + Parts(AfterPart(s))
  }

  // ---- an independent reading ----

  /** All components, empty ones included, as splitting at every slash gives them. */
  function Split(s: seq<byte>): seq<seq<byte>> {
    var n := PartLength(s);
    if n == |s| then [s] else [s[..n]] + Split(s[n + 1..])
  }

  function TakeNonEmpty(cs: seq<seq<byte>>): seq<seq<byte>> {
    if cs == [] || cs[0] == [] then [] else [cs[0]] + TakeNonEmpty(cs[1..])
  }

  /** The parts are the longest prefix of non-empty components. */
  lemma {:induction false} PartsAreLongestPrefix(s: seq<byte>)
    ensures Parts(s) == TakeNonEmpty(Split(s))
  {
    var n := PartLength(s);
    if 0 < n < |s| {
      PartsAreLongestPrefix(s[n + 1..]);
      assert Split(s)[1..] == Split(s[n + 1..]);
    } else if n == |s| && n > 0 {
      assert s[..n] == s && s[n..] == [];
      assert Parts([]) == [] && Split(s)[1..] == [];
    }
  }

  // ---- printing ----

  ghost predicate IsPart(p: seq<byte>) {
    p != [] && SLASH !in p && 0 !in p
  }

  function Join(parts: seq<seq<byte>>): seq<byte> {
    if parts == [] then []
    else if |parts| == 1 then parts[0]
    else parts[0] + [SLASH] + Join(parts[1..])
  }

  function Print(drive: nat, parts: seq<seq<byte>>): seq<byte>
    requires drive < 10
  {
    [48 + drive, COLON, SLASH] + Join(parts)
  }

  lemma {:induction false} PartLengthOf(p: seq<byte>, rest: seq<byte>)
    requires SLASH !in p && (rest == [] || rest[0] == SLASH)
    ensures PartLength(p + rest) == |p|
  {
    if p == [] {
      assert p + rest == rest;
    } else {
      assert (p + rest)[1..] == p[1..] + rest;
      PartLengthOf(p[1..], rest);
    }
  }

  /** Printing any parts and taking them apart again gives them back. */
  lemma {:induction false} PartsOfJoin(parts: seq<seq<byte>>)
    requires forall p :: p in parts ==> IsPart(p)
    ensures Parts(Join(parts)) == parts
  {
    if parts != [] {
      var p, s := parts[0], Join(parts);
      assert p in parts && IsPart(p);
      var tail := if |parts| == 1 then [] else [SLASH] + Join(parts[1..]);
      assert s == p + tail;
      PartLengthOf(p, tail);
      assert s[..|p|] == p;
      assert AfterPart(s) == Join(parts[1..]) by {
        if |parts| > 1 {
          assert s[|p| + 1..] == Join(parts[1..]);
        } else {
          assert s[|p|..] == [] == Join(parts[1..]);
        }
      }
      PartsOfJoin(parts[1..]);
    } else {
      assert Parts([]) == [];
    }
  }

  /** Every part of a string is a proper part, and together they are no longer than the string. */
  lemma {:induction false} PartsWellFormed(s: seq<byte>)
    requires 0 !in s
    ensures forall p :: p in Parts(s) ==> IsPart(p) && |p| <= |s|
    ensures 2 * |Parts(s)| <= |s| + 1
  {
    var n := PartLength(s);
    if n > 0 {
      var rest := AfterPart(s);
      assert forall x :: x in rest ==> x in s;
      PartsWellFormed(rest);
      assert forall x :: x in s[..n] ==> x in s;
      assert SLASH !in s[..n];
      forall p | p in Parts(s) ensures IsPart(p) && |p| <= |s| {
        assert p == s[..n] || p in Parts(rest);
      }
      if n == |s| {
        assert rest == [] && Parts(rest) == [];
      }
    }
  }

  /** Printing a drive and parts and parsing the string gives drive and parts back. */
  lemma PrintThenParse(drive: nat, parts: seq<seq<byte>>)
    requires drive < 10 && forall p :: p in parts ==> IsPart(p)
    ensures var path := Print(drive, parts);
      0 !in path && IsPathValid(path) && path[0] - 48 == drive && Parts(path[3..]) == parts
  {
    var path := Print(drive, parts);
    assert path[3..] == Join(parts);
    PartsOfJoin(parts);
    JoinClean(parts);
  }

  lemma {:induction false} JoinClean(parts: seq<seq<byte>>)
    requires forall p :: p in parts ==> IsPart(p)
    ensures 0 !in Join(parts)
  {
    if parts != [] {
      assert IsPart(parts[0]);
      JoinClean(parts[1..]);
    }
  }

  /** A string is taken for a path exactly if it is a digit, a colon, a slash, and whatever follows. */
  lemma ValidIff(path: seq<byte>)
    ensures IsPathValid(path) <==> exists drive: nat, rest: seq<byte> :: drive < 10 && path == Prefix(drive) + rest
  {
    if IsPathValid(path) {
      assert path == Prefix(path[0] - 48) + path[3..];
    }
  }

  /** "0:/" and so on. */
  function Prefix(drive: nat): seq<byte>
    requires drive < 10
  {
    [48 + drive, 58, 47]
  }
}
