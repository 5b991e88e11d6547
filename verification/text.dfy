/** String primitives of JavaScript that the application's decisions rest on:
    `String.prototype.includes`, `.length` (UTF-16 code units), and the
    truthiness of an optional string or number in `x || fallback`. */
module Text {

  predicate IsPrefix(t: string, s: string) {
    |t| <= |s| && s[..|t|] == t
  }

  /** `s.includes(t)`: `t` occurs in `s` as a contiguous run. */
  predicate Contains(s: string, t: string)
    decreases |s|
  {
    IsPrefix(t, s) || (s != [] && Contains(s[1..], t))
  }

  /** An occurrence at any position is found. */
  lemma {:induction false} ContainsAt(s: string, t: string, i: nat)
    requires i + |t| <= |s| && s[i..i + |t|] == t
    ensures Contains(s, t)
    decreases i
  {
    if i > 0 {
      assert s[1..][i - 1..i - 1 + |t|] == s[i..i + |t|];
      ContainsAt(s[1..], t, i - 1);
    }
  }

  /** Every character of a contained string occurs in the container. */
  lemma {:induction false} ContainedCharsOccur(s: string, t: string)
    requires Contains(s, t)
    ensures forall c | c in t :: c in s
    decreases |s|
  {
    if IsPrefix(t, s) {
      forall c | c in t ensures c in s {
        var k :| 0 <= k < |t| && t[k] == c;
        assert s[k] == c;
      }
    } else {
      ContainedCharsOccur(s[1..], t);
      forall c | c in t ensures c in s {
        assert c in s[1..];
        var k :| 0 <= k < |s[1..]| && s[1..][k] == c;
        assert s[k + 1] == c;
      }
    }
  }

  /** A string with a character that `s` lacks does not occur in `s`. */
  lemma MissingCharExcludes(s: string, t: string, c: char)
    requires c in t && c !in s
    ensures !Contains(s, t)
  {
    if Contains(s, t) {
      ContainedCharsOccur(s, t);
      assert false;
    }
  }

  /** An occurrence is found at some position. */
  lemma {:induction false} ContainsWitness(s: string, t: string) returns (i: nat)
    requires Contains(s, t)
    ensures i + |t| <= |s| && s[i..i + |t|] == t
    decreases |s|
  {
    if IsPrefix(t, s) {
      i := 0;
    } else {
      var j := ContainsWitness(s[1..], t);
      assert s[1..][j..j + |t|] == s[j + 1..j + 1 + |t|];
      i := j + 1;
    }
  }

  /** Appending text keeps an occurrence. */
  lemma ContainsExtendRight(a: string, b: string, t: string)
    requires Contains(a, t)
    ensures Contains(a + b, t)
  {
    var i := ContainsWitness(a, t);
    assert (a + b)[i..i + |t|] == a[i..i + |t|];
    ContainsAt(a + b, t, i);
  }

  /** Prepending text keeps an occurrence. */
  lemma ContainsExtendLeft(a: string, b: string, t: string)
    requires Contains(b, t)
    ensures Contains(a + b, t)
  {
    var i := ContainsWitness(b, t);
    assert (a + b)[|a| + i..|a| + i + |t|] == b[i..i + |t|];
    ContainsAt(a + b, t, |a| + i);
  }

  /** The pieces of a long literal joined together; literals are written
      this way so that facts about them can be proved piece by piece. */
  function Concat(pieces: seq<string>): string
    decreases |pieces|
  {
    if pieces == [] then "" else Concat(pieces[..|pieces| - 1]) + pieces[|pieces| - 1]
  }

  /** Every piece occurs in the joined string. */
  lemma {:induction false} ConcatContainsPiece(pieces: seq<string>, k: nat)
    requires k < |pieces|
    ensures Contains(Concat(pieces), pieces[k])
    decreases |pieces|
  {
    var prefix := pieces[..|pieces| - 1];
    var last := pieces[|pieces| - 1];
    if k == |pieces| - 1 {
      assert IsPrefix(last, last);
      ContainsExtendLeft(Concat(prefix), last, last);
    } else {
      assert prefix[k] == pieces[k];
      ConcatContainsPiece(prefix, k);
      ContainsExtendRight(Concat(prefix), last, pieces[k]);
    }
  }

  /** A character that no piece holds is absent from the joined string. */
  lemma {:induction false} ConcatLacksChar(pieces: seq<string>, c: char)
    requires forall k | 0 <= k < |pieces| :: c !in pieces[k]
    ensures c !in Concat(pieces)
    decreases |pieces|
  {
    if pieces != [] {
      ConcatLacksChar(pieces[..|pieces| - 1], c);
    }
  }

  /** Code units one character takes in UTF-16: two for characters beyond
      the Basic Multilingual Plane. */
  function Utf16Units(c: char): nat {
    if c as int >= 0x1_0000 then 2 else 1
  }

  /** JavaScript's `s.length`. */
  function Utf16Length(s: string): (n: nat)
    ensures |s| <= n <= 2 * |s|
    ensures (forall i | 0 <= i < |s| :: s[i] as int < 0x1_0000) ==> n == |s|
    decreases |s|
  {
    if s == [] then 0 else Utf16Units(s[0]) + Utf16Length(s[1..])
  }
}

/** JavaScript truthiness of the optional values the application reads:
    `null`, `undefined` and `""` are falsy strings; `0` is a falsy number. */
module Js {
  import opened Wrappers

  predicate Truthy(o: Option<string>) {
    o.Some? && o.value != ""
  }

  /** `o || fallback`. */
  function OrElse(o: Option<string>, fallback: string): (r: string)
    ensures Truthy(o) ==> r == o.value
    ensures !Truthy(o) ==> r == fallback
  {
    if Truthy(o) then o.value else fallback
  }

  /** `o || null` for a string. */
  function OrNull(o: Option<string>): (r: Option<string>)
    ensures r.Some? <==> Truthy(o)
    ensures r.Some? ==> r == o
  {
    if Truthy(o) then o else None
  }

  /** `n || null` for a number. */
  function NumberOrNull(n: Option<int>): (r: Option<int>)
    ensures r.Some? <==> n.Some? && n.value != 0
    ensures r.Some? ==> r == n
  {
    if n.Some? && n.value != 0 then n else None
  }
}
