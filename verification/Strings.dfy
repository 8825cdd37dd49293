/** The PHP string primitives the transpiler relies on: `str_contains`,
    `str_replace`, `explode`, `implode` and `substr($s, 0, 1)`, on strings
    modelled as sequences of characters. */
module Strings {

  /** `p` occurs in `s` starting at index `i`. */
  predicate OccursAt(s: string, p: string, i: int) {
    0 <= i && i + |p| <= |s| && s[i..i + |p|] == p
  }

  /** PHP `str_contains(s, p)`: `p` occurs somewhere in `s`. */
  predicate Contains(s: string, p: string) {
    exists i :: 0 <= i <= |s| - |p| && OccursAt(s, p, i)
  }

  /** PHP `str_replace(p, r, s)` for a non-empty needle: one left-to-right
      pass that replaces every non-overlapping occurrence of `p` by `r`;
      the replaced text is not scanned again. */
  function ReplaceAll(s: string, p: string, r: string): string
    requires |p| > 0
    decreases |s|
  {
    if |s| < |p| then s
    else if s[..|p|] == p then r + ReplaceAll(s[|p|..], p, r)
    else [s[0]] + ReplaceAll(s[1..], p, r)
  }

  /** PHP `explode(p, s)` for a non-empty separator: the pieces of `s`
      between the non-overlapping occurrences of `p`, scanned left to right. */
  function Explode(s: string, p: string): (pieces: seq<string>)
    requires |p| > 0
    ensures |pieces| >= 1
    ensures |pieces[0]| <= |s| && pieces[0] == s[..|pieces[0]|]
    decreases |s|
  {
    if |s| < |p| then [s]
    else if s[..|p|] == p then [""] + Explode(s[|p|..], p)
    else
      var rest := Explode(s[1..], p);
      [[s[0]] + rest[0]] + rest[1..]
  }

  /** PHP `implode(sep, parts)`: the parts with `sep` between neighbours. */
  function Implode(sep: string, parts: seq<string>): string
  {
    if |parts| == 0 then ""
    else if |parts| == 1 then parts[0]
    else parts[0] + sep + Implode(sep, parts[1..])
  }

  /** PHP `substr(s, 0, 1)`: the first character, or "" for the empty string.
      PHP takes the first byte, which is the same thing for ASCII text. */
  function FirstChar(s: string): (c: string)
    ensures |c| <= 1
    ensures |s| == 0 <==> |c| == 0
    ensures |c| == 1 ==> c[0] == s[0]
  {
    if |s| == 0 then "" else s[..1]
  }

  /** The last element of a non-empty sequence (PHP `end`). */
  function Last<T>(xs: seq<T>): T
    requires |xs| > 0
  {
    xs[|xs| - 1]
  }

  // ---------------------------------------------------------------------
  // Facts about Contains

  /** A one-character needle occurs exactly when that character is in `s`. */
  lemma ContainsChar(s: string, ch: char)
    ensures Contains(s, [ch]) <==> ch in s
  {
    if ch in s {
      var i :| 0 <= i < |s| && s[i] == ch;
      assert s[i..i + 1] == [ch];
      assert OccursAt(s, [ch], i);
    }
    if Contains(s, [ch]) {
      var i :| 0 <= i <= |s| - 1 && OccursAt(s, [ch], i);
      assert s[i] == s[i..i + 1][0];
    }
  }

  /** When `p` does not start `s`, it occurs in `s` exactly when it occurs
      in `s` without its first character. */
  lemma ContainsShift(s: string, p: string)
    requires |p| > 0 && |s| >= |p| && s[..|p|] != p
    ensures Contains(s, p) <==> Contains(s[1..], p)
  {
    if Contains(s, p) {
      var i :| 0 <= i <= |s| - |p| && OccursAt(s, p, i);
      assert i != 0;
      assert s[1..][i - 1..i - 1 + |p|] == s[i..i + |p|];
      assert OccursAt(s[1..], p, i - 1);
    }
    if Contains(s[1..], p) {
      var j :| 0 <= j <= |s[1..]| - |p| && OccursAt(s[1..], p, j);
      assert s[j + 1..j + 1 + |p|] == s[1..][j..j + |p|];
      assert OccursAt(s, p, j + 1);
    }
  }

  /** A string containing `p` contains the first character of `p`. */
  lemma ContainsFirstChar(s: string, p: string)
    requires |p| > 0
    ensures Contains(s, p) ==> p[0] in s
  {
    if Contains(s, p) {
      var i :| 0 <= i <= |s| - |p| && OccursAt(s, p, i);
      assert s[i] == s[i..i + |p|][0];
    }
  }

  /** A string containing `p` contains the last character of `p`. */
  lemma ContainsLastChar(s: string, p: string)
    requires |p| > 0
    ensures Contains(s, p) ==> p[|p| - 1] in s
  {
    if Contains(s, p) {
      var i :| 0 <= i <= |s| - |p| && OccursAt(s, p, i);
      assert s[i + |p| - 1] == s[i..i + |p|][|p| - 1];
    }
  }

  // ---------------------------------------------------------------------
  // Facts about Implode

  /** Implode of a list with at least two parts, seen from its last part. */
  lemma {:induction false} ImplodeSnoc(sep: string, parts: seq<string>)
    requires |parts| >= 2
    ensures Implode(sep, parts) == Implode(sep, parts[..|parts| - 1]) + sep + Last(parts)
    decreases |parts|
  {
    if |parts| > 2 {
      ImplodeSnoc(sep, parts[1..]);
      assert parts[1..][..|parts[1..]| - 1] == parts[..|parts| - 1][1..];
    }
  }

  /** Implode of two non-empty lists joined together. */
  lemma {:induction false} ImplodeJoin(sep: string, a: seq<string>, b: seq<string>)
    requires |a| >= 1 && |b| >= 1
    ensures Implode(sep, a + b) == Implode(sep, a) + sep + Implode(sep, b)
    decreases |a|
  {
    if |a| == 1 {
      assert (a + b)[1..] == b;
    } else {
      ImplodeJoin(sep, a[1..], b);
      assert (a + b)[1..] == a[1..] + b;
    }
  }

  /** Glueing text onto the front of the first part glues it onto the front
      of the joined string. */
  lemma ImplodeGlueFront(sep: string, x: string, parts: seq<string>)
    requires |parts| >= 1
    ensures Implode(sep, [x + parts[0]] + parts[1..]) == x + Implode(sep, parts)
  {
    var glued := [x + parts[0]] + parts[1..];
    assert glued[1..] == parts[1..];
  }

  /** An empty first part contributes only the separator. */
  lemma ImplodeEmptyFront(sep: string, parts: seq<string>)
    requires |parts| >= 1
    ensures Implode(sep, [""] + parts) == sep + Implode(sep, parts)
  {
    assert ([""] + parts)[1..] == parts;
  }

  // ---------------------------------------------------------------------
  // Facts about Explode and ReplaceAll

  /** Joining the pieces with the separator gives back the original string. */
  lemma {:induction false} ImplodeExplode(s: string, p: string)
    requires |p| > 0
    ensures Implode(p, Explode(s, p)) == s
    decreases |s|
  {
    if |s| < |p| {
    } else if s[..|p|] == p {
      ImplodeExplode(s[|p|..], p);
      ImplodeEmptyFront(p, Explode(s[|p|..], p));
      assert s == s[..|p|] + s[|p|..];
    } else {
      ImplodeExplode(s[1..], p);
      ImplodeGlueFront(p, [s[0]], Explode(s[1..], p));
      assert s == [s[0]] + s[1..];
    }
  }

  /** No piece contains the separator. */
  lemma {:induction false} ExplodePiecesFree(s: string, p: string)
    requires |p| > 0
    ensures forall k :: 0 <= k < |Explode(s, p)| ==> !Contains(Explode(s, p)[k], p)
    decreases |s|
  {
    var pieces := Explode(s, p);
    if |s| < |p| {
    } else if s[..|p|] == p {
      ExplodePiecesFree(s[|p|..], p);
      assert !Contains("", p);
      assert pieces[1..] == Explode(s[|p|..], p);
    } else {
      var rest := Explode(s[1..], p);
      ExplodePiecesFree(s[1..], p);
      var first := [s[0]] + rest[0];
      assert first == s[..|first|];
      if |first| >= |p| {
        assert first[..|p|] == s[..|p|];
        ContainsShift(first, p);
        assert first[1..] == rest[0];
      }
      assert pieces[0] == first;
      assert forall k :: 1 <= k < |pieces| ==> pieces[k] == rest[k];
    }
  }

  /** Exploding yields the single piece `s` exactly when `p` does not occur in `s`. */
  lemma {:induction false} ExplodeSingle(s: string, p: string)
    requires |p| > 0
    ensures !Contains(s, p) <==> Explode(s, p) == [s]
    decreases |s|
  {
    if |s| < |p| {
    } else if s[..|p|] == p {
      assert OccursAt(s, p, 0);
    } else {
      ExplodeSingle(s[1..], p);
      ContainsShift(s, p);
      var rest := Explode(s[1..], p);
      if rest == [s[1..]] {
        assert [s[0]] + s[1..] == s;
      }
      if Explode(s, p) == [s] {
        assert |rest| == 1;
        assert rest[0] == s[1..];
      }
    }
  }

  /** `str_replace` is `implode(r, explode(p, s))`: every piece between the
      occurrences of `p` is kept and every occurrence becomes `r`. */
  lemma {:induction false} ReplaceAllIsImplodeExplode(s: string, p: string, r: string)
    requires |p| > 0
    ensures ReplaceAll(s, p, r) == Implode(r, Explode(s, p))
    decreases |s|
  {
    if |s| < |p| {
    } else if s[..|p|] == p {
      ReplaceAllIsImplodeExplode(s[|p|..], p, r);
      ImplodeEmptyFront(r, Explode(s[|p|..], p));
    } else {
      ReplaceAllIsImplodeExplode(s[1..], p, r);
      ImplodeGlueFront(r, [s[0]], Explode(s[1..], p));
    }
  }

  /** A character that cannot start `p` is copied by `str_replace`. */
  lemma ReplaceAllSkip(ch: char, y: string, p: string, r: string)
    requires |p| > 0 && ch != p[0]
    ensures ReplaceAll([ch] + y, p, r) == [ch] + ReplaceAll(y, p, r)
  {
    var s := [ch] + y;
    assert s[1..] == y;
    if |s| >= |p| {
      assert s[..|p|][0] == ch;
    }
  }

  /** Text none of whose characters can start `p` is copied by `str_replace`. */
  lemma {:induction false} ReplaceAllSkipAll(x: string, y: string, p: string, r: string)
    requires |p| > 0 && p[0] !in x
    ensures ReplaceAll(x + y, p, r) == x + ReplaceAll(y, p, r)
    decreases |x|
  {
    if |x| > 0 {
      assert x + y == [x[0]] + (x[1..] + y);
      ReplaceAllSkip(x[0], x[1..] + y, p, r);
      ReplaceAllSkipAll(x[1..], y, p, r);
      assert x == [x[0]] + x[1..];
    } else {
      assert x + y == y;
    }
  }

  /** An occurrence of `p` at the front is replaced by `r`. */
  lemma ReplaceAllHit(y: string, p: string, r: string)
    requires |p| > 0
    ensures ReplaceAll(p + y, p, r) == r + ReplaceAll(y, p, r)
  {
    assert (p + y)[..|p|] == p;
    assert (p + y)[|p|..] == y;
  }
}
