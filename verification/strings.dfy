/**
  The two string operations the scripts rely on: the substring test
  `sub in s` and whitespace splitting `s.split()`.
 */
module Strings {

  /** `sub in s`: some slice of s equals sub. */
  predicate Contains(s: string, sub: string)
    decreases |s|
  {
    |sub| <= |s| && (s[..|sub|] == sub || Contains(s[1..], sub))
  }

  ghost predicate OccursAt(s: string, sub: string, i: int) {
    0 <= i && i + |sub| <= |s| && s[i..i + |sub|] == sub
  }

  /** The recursive test agrees with the positional definition, both ways. */
  lemma {:induction false} ContainsIff(s: string, sub: string)
    ensures Contains(s, sub) <==> exists i :: OccursAt(s, sub, i)
    decreases |s|
  {
    if Contains(s, sub) {
      if s[..|sub|] == sub {
        assert OccursAt(s, sub, 0);
      } else {
        ContainsIff(s[1..], sub);
        var i :| OccursAt(s[1..], sub, i);
        assert s[1..][i..i + |sub|] == s[i + 1..i + 1 + |sub|];
        assert OccursAt(s, sub, i + 1);
      }
    }
    if i :| OccursAt(s, sub, i) {
      if i > 0 {
        assert s[1..][i - 1..i - 1 + |sub|] == s[i..i + |sub|];
        assert OccursAt(s[1..], sub, i - 1);
        ContainsIff(s[1..], sub);
      }
    }
  }

  /** A string contains each of its prefixes. */
  lemma ContainsPrefix(prefix: string, rest: string)
    ensures Contains(prefix + rest, prefix)
  {
    assert (prefix + rest)[..|prefix|] == prefix;
  }

  /** `str.split()` separators: space, tab, newline, return, vertical tab, form feed. */
  predicate IsSpace(c: char) {
    c == ' ' || c == '\t' || c == '\n' || c == '\r' || c as int == 11 || c as int == 12
  }

  ghost predicate IsWord(w: string) {
    |w| > 0 && forall j :: 0 <= j < |w| ==> !IsSpace(w[j])
  }

  /** The characters of s that are not separators, in order. */
  function Visible(s: string): string {
    if s == [] then []
    else if IsSpace(s[0]) then Visible(s[1..])
    else [s[0]] + Visible(s[1..])
  }

  function Flatten(ws: seq<string>): string {
    if ws == [] then [] else ws[0] + Flatten(ws[1..])
  }

  /** Length of the maximal run of non-separators that starts s. */
  function WordLength(s: string, i: nat): (n: nat)
    requires 0 < i <= |s|
    requires forall j :: 0 <= j < i ==> !IsSpace(s[j])
    ensures i <= n <= |s|
    ensures forall j :: 0 <= j < n ==> !IsSpace(s[j])
    ensures n < |s| ==> IsSpace(s[n])
    decreases |s| - i
  {
    if i == |s| || IsSpace(s[i]) then i else WordLength(s, i + 1)
  }

  lemma {:induction false} VisibleOfWord(w: string, rest: string)
    requires forall j :: 0 <= j < |w| ==> !IsSpace(w[j])
    ensures Visible(w + rest) == w + Visible(rest)
    decreases |w|
  {
    if w != [] {
      assert (w + rest)[1..] == w[1..] + rest;
      VisibleOfWord(w[1..], rest);
      assert !IsSpace((w + rest)[0]);
      assert Visible(w + rest) == [w[0]] + Visible(w[1..] + rest);
      assert w == [w[0]] + w[1..];
    } else {
      assert w + rest == rest;
    }
  }

  /**
    `s.split()`: the maximal runs of non-separators. Every piece is a
    non-empty run without separators, and together they spell s with its
    separators removed.
   */
  function Words(s: string): (ws: seq<string>)
    ensures forall k :: 0 <= k < |ws| ==> IsWord(ws[k])
    ensures Flatten(ws) == Visible(s)
    decreases |s|
  {
    if s == [] then []
    else if IsSpace(s[0]) then Words(s[1..])
    else
      var n := WordLength(s, 1);
      var ws := [s[..n]] + Words(s[n..]);
      assert ws[1..] == Words(s[n..]);
      assert s == s[..n] + s[n..];
      VisibleOfWord(s[..n], s[n..]);
      ws
  }

  /** A string of separators only splits into nothing. */
  lemma {:induction false} WordsOfBlank(sp: string)
    requires forall j :: 0 <= j < |sp| ==> IsSpace(sp[j])
    ensures Words(sp) == []
    decreases |sp|
  {
    if sp != [] {
      WordsOfBlank(sp[1..]);
    }
  }

  /**
    The split is by maximal runs: after any leading separators, the first
    piece is the whole run up to the next separator or the end, and the
    split goes on from there. With WordsOfBlank this fixes `Words` on every
    string.
   */
  lemma {:induction false} WordsOfRun(sp: string, w: string, rest: string)
    requires forall j :: 0 <= j < |sp| ==> IsSpace(sp[j])
    requires IsWord(w)
    requires rest == [] || IsSpace(rest[0])
    ensures Words(sp + w + rest) == [w] + Words(rest)
    decreases |sp|
  {
    var s := sp + w + rest;
    if sp != [] {
      assert IsSpace(s[0]);
      assert s[1..] == sp[1..] + w + rest;
      WordsOfRun(sp[1..], w, rest);
    } else {
      assert s == w + rest;
      assert !IsSpace(s[0]);
      var n := WordLength(s, 1);
      assert forall j :: 0 <= j < |w| ==> s[j] == w[j] && !IsSpace(s[j]);
      assert |w| < |s| ==> s[|w|] == rest[0];
      assert n == |w|;
      assert s[..n] == w;
      assert s[n..] == rest;
    }
  }

  // ---------------------------------------------------------------------------
  // Ordering and `sorted()`

  /** `a < b` on strings: character by character, a proper prefix first. */
  predicate Below(a: string, b: string)
    decreases |a|
  {
    |b| > 0 && (|a| == 0 || a[0] < b[0] || (a[0] == b[0] && Below(a[1..], b[1..])))
  }

  lemma {:induction false} BelowIrreflexive(a: string)
    ensures !Below(a, a)
    decreases |a|
  {
    if |a| > 0 {
      BelowIrreflexive(a[1..]);
    }
  }

  lemma {:induction false} BelowTransitive(a: string, b: string, c: string)
    requires Below(a, b) && Below(b, c)
    ensures Below(a, c)
    decreases |a|
  {
    if |a| > 0 && a[0] == b[0] && b[0] == c[0] {
      BelowTransitive(a[1..], b[1..], c[1..]);
    }
  }

  /** Any two different strings are ordered one way round. */
  lemma {:induction false} BelowTotal(a: string, b: string)
    ensures a == b || Below(a, b) || Below(b, a)
    decreases |a|
  {
    if |a| > 0 && |b| > 0 && a[0] == b[0] {
      BelowTotal(a[1..], b[1..]);
      if a[1..] == b[1..] {
        assert a == [a[0]] + a[1..] && b == [b[0]] + b[1..];
      }
    }
  }

  lemma BelowAsymmetric(a: string, b: string)
    requires Below(a, b)
    ensures !Below(b, a)
  {
    if Below(b, a) {
      BelowTransitive(a, b, a);
      BelowIrreflexive(a);
    }
  }

  /** lo is in s and below every other element of s. */
  predicate LeastIn(lo: string, s: set<string>) {
    lo in s && forall v :: v in s && v != lo ==> Below(lo, v)
  }

  /** Adding one string to a set with a least element keeps a least element. */
  lemma LeastOfAdded(a: string, lo: string, rest: set<string>) returns (m: string)
    requires LeastIn(lo, rest)
    ensures LeastIn(m, rest + {a})
  {
    BelowTotal(a, lo);
    if a == lo || !Below(a, lo) {
      m := lo;
    } else {
      m := a;
      forall v | v in rest + {a} && v != a ensures Below(a, v) {
        if v != lo {
          BelowTransitive(a, lo, v);
        }
      }
    }
  }

  /** Every finite non-empty set of strings has a least element. */
  lemma {:induction false} HasLeast(s: set<string>)
    requires s != {}
    ensures exists lo :: LeastIn(lo, s)
    decreases |s|
  {
    var a :| a in s;
    var rest := s - {a};
    if rest == {} {
      assert s == {a};
      assert LeastIn(a, s);
    } else {
      HasLeast(rest);
      var lo :| LeastIn(lo, rest);
      var m := LeastOfAdded(a, lo, rest);
      assert s == rest + {a};
    }
  }

  /** The least string of a non-empty set. */
  function Least(s: set<string>): (lo: string)
    requires s != {}
    ensures lo in s
    ensures forall v :: v in s && v != lo ==> Below(lo, v)
  {
    HasLeast(s);
    assert forall a, b :: LeastIn(a, s) && LeastIn(b, s) ==> a == b by {
      forall a, b | LeastIn(a, s) && LeastIn(b, s) ensures a == b {
        if a != b {
          BelowAsymmetric(a, b);
        }
      }
    }
    var lo :| LeastIn(lo, s);
    lo
  }

  /** `sorted()` of a set of strings: each element once, strictly ascending. */
  function Sorted(s: set<string>): (r: seq<string>)
    ensures |r| == |s|
    ensures forall v :: v in r <==> v in s
    ensures forall i, j :: 0 <= i < j < |r| ==> Below(r[i], r[j])
    decreases |s|
  {
    if s == {} then []
    else
      var lo := Least(s);
      [lo] + Sorted(s - {lo})
  }
}
