/**
 * Text operations shared by the front end and the back end: lower-casing,
 * substring search (JavaScript `includes`, a regular-expression alternation,
 * Python `in`), joining with a separator and splitting at a character.
 */
module Strings {

  /** Characters that lower-casing changes: ASCII A-Z and the Latin-1 capitals
      U+00C0..U+00DE except the multiplication sign U+00D7. */
  predicate IsUpper(c: char) {
    ('A' <= c <= 'Z') || ('\U{00C0}' <= c <= '\U{00DE}' && c != '\U{00D7}')
  }

  /** Lower-case of one character; each capital above maps 32 code points up. */
  function LowerChar(c: char): (r: char)
    ensures !IsUpper(r)
    ensures r == c <==> !IsUpper(c)
  {
    if IsUpper(c) then (c as int + 32) as char else c
  }

  /** `toLowerCase()` / `lower()`, character by character. */
  function Lower(s: string): (r: string)
    ensures |r| == |s|
    ensures forall i :: 0 <= i < |r| ==> !IsUpper(r[i])
    ensures forall i :: 0 <= i < |s| && !IsUpper(s[i]) ==> r[i] == s[i]
  {
    seq(|s|, i requires 0 <= i < |s| => LowerChar(s[i]))
  }

  lemma LowerIdempotent(s: string)
    ensures Lower(Lower(s)) == Lower(s)
  {
  }

  lemma LowerAppend(a: string, b: string)
    ensures Lower(a + b) == Lower(a) + Lower(b)
  {
  }

  /** Lower-case letters that have a single upper-case partner in the same
      ranges: ASCII a-z and the Latin-1 letters U+00E0..U+00FE except U+00F7. */
  predicate IsLowerLetter(c: char) {
    ('a' <= c <= 'z') || ('\U{00E0}' <= c <= '\U{00FE}' && c != '\U{00F7}')
  }

  /** Exchanges the case of a letter of the two ranges; leaves other characters. */
  function SwapCase(c: char): char {
    if IsUpper(c) then (c as int + 32) as char
    else if IsLowerLetter(c) then (c as int - 32) as char
    else c
  }

  /** `b` is `a` with the case of some letters changed. */
  predicate CaseVariant(a: string, b: string) {
    |a| == |b| && forall i :: 0 <= i < |a| ==> b[i] == a[i] || b[i] == SwapCase(a[i])
  }

  /** Lower-casing erases every change of case. */
  lemma LowerIgnoresCase(a: string, b: string)
    requires CaseVariant(a, b)
    ensures Lower(a) == Lower(b)
  {
    forall i | 0 <= i < |a|
      ensures Lower(a)[i] == Lower(b)[i]
    {
      assert LowerChar(SwapCase(a[i])) == LowerChar(a[i]);
    }
  }

  /** True when `s` begins with `p`. */
  predicate StartsWith(s: string, p: string) {
    p == [] || (s != [] && s[0] == p[0] && StartsWith(s[1..], p[1..]))
  }

  /** True when `s` ends with `p`: a regular expression anchored by `$`. */
  predicate EndsWith(s: string, p: string) {
    |p| <= |s| && s[|s| - |p|..] == p
  }

  /** True when `p` occurs in `s` as a contiguous substring. */
  predicate Contains(s: string, p: string) {
    |p| <= |s| && (StartsWith(s, p) || (s != [] && Contains(s[1..], p)))
  }

  /** True when at least one of `ps` occurs in `s`: a regular-expression
      alternation `a|b|c`, or Python's `any(p in s for p in ps)`. */
  predicate ContainsAny(s: string, ps: seq<string>) {
    |ps| > 0 && (Contains(s, ps[0]) || ContainsAny(s, ps[1..]))
  }

  lemma {:induction false} StartsWithIff(s: string, p: string)
    ensures StartsWith(s, p) <==> |p| <= |s| && s[..|p|] == p
  {
    if p != [] && s != [] {
      StartsWithIff(s[1..], p[1..]);
      if |p| <= |s| && s[..|p|] == p {
        assert s[1..][..|p| - 1] == s[..|p|][1..];
      }
      if StartsWith(s, p) {
        assert s[..|p|] == [s[0]] + s[1..][..|p| - 1];
      }
    }
  }

  /** `p` occurs in `s` starting at index `i`. */
  predicate OccursAt(s: string, p: string, i: int) {
    0 <= i && i + |p| <= |s| && s[i..i + |p|] == p
  }

  /** Substring search agrees with the index-based definition of an occurrence. */
  lemma {:induction false} ContainsIff(s: string, p: string)
    ensures Contains(s, p) <==> exists i :: OccursAt(s, p, i)
  {
    StartsWithIff(s, p);
    if StartsWith(s, p) {
      assert OccursAt(s, p, 0);
    }
    if s != [] {
      ContainsIff(s[1..], p);
      if Contains(s[1..], p) {
        var i :| OccursAt(s[1..], p, i);
        assert s[i + 1..i + 1 + |p|] == p;
        assert OccursAt(s, p, i + 1);
      }
      if exists i :: OccursAt(s, p, i) {
        var i :| OccursAt(s, p, i);
        if i > 0 {
          assert s[1..][i - 1..i - 1 + |p|] == p;
          assert OccursAt(s[1..], p, i - 1);
        }
      }
    } else {
      if exists i :: OccursAt(s, p, i) {
        var i :| OccursAt(s, p, i);
        assert i == 0 && p == [];
      }
    }
  }

  lemma ContainsAt(s: string, p: string, i: int)
    requires OccursAt(s, p, i)
    ensures Contains(s, p)
  {
    ContainsIff(s, p);
  }

  lemma ContainsAppend(a: string, b: string, p: string)
    ensures Contains(a, p) ==> Contains(a + b, p)
    ensures Contains(b, p) ==> Contains(a + b, p)
  {
    ContainsIff(a, p);
    ContainsIff(b, p);
    if Contains(a, p) {
      var i :| OccursAt(a, p, i);
      assert (a + b)[i..i + |p|] == p;
      ContainsAt(a + b, p, i);
    }
    if Contains(b, p) {
      var i :| OccursAt(b, p, i);
      assert (a + b)[|a| + i..|a| + i + |p|] == p;
      ContainsAt(a + b, p, |a| + i);
    }
  }

  /** An occurrence of `p` cannot straddle a separator character that `p` lacks. */
  lemma ContainsAroundSeparator(a: string, c: char, b: string, p: string)
    requires c !in p
    ensures Contains(a + [c] + b, p) <==> Contains(a, p) || Contains(b, p)
  {
    var s := a + [c] + b;
    ContainsIff(s, p);
    ContainsIff(a, p);
    ContainsIff(b, p);
    ContainsAppend(a + [c], b, p);
    ContainsAppend(a, [c], p);
    if Contains(s, p) {
      var i :| OccursAt(s, p, i);
      if i + |p| <= |a| {
        assert a[i..i + |p|] == s[i..i + |p|];
        assert OccursAt(a, p, i);
      } else if i > |a| {
        assert b[i - |a| - 1..i - |a| - 1 + |p|] == s[i..i + |p|];
        assert OccursAt(b, p, i - |a| - 1);
      } else {
        OccurrenceCovers(s, p, i, |a|);
        assert false;
      }
    }
  }

  /** Every character an occurrence covers is a character of the term. */
  lemma OccurrenceCovers(s: string, p: string, i: int, j: int)
    requires OccursAt(s, p, i) && i <= j < i + |p|
    ensures s[j] in p
  {
    assert s[j] == s[i..i + |p|][j - i];
  }

  /** A text that contains `p + q` contains `p`. */
  lemma ContainsPrefix(s: string, p: string, q: string)
    ensures Contains(s, p + q) ==> Contains(s, p)
  {
    ContainsIff(s, p + q);
    ContainsIff(s, p);
    if Contains(s, p + q) {
      var i :| OccursAt(s, p + q, i);
      assert s[i..i + |p|] == s[i..i + |p + q|][..|p|];
      assert OccursAt(s, p, i);
    }
  }

  lemma {:induction false} ContainsAnyIff(s: string, ps: seq<string>)
    ensures ContainsAny(s, ps) <==> exists k :: 0 <= k < |ps| && Contains(s, ps[k])
  {
    if ps != [] {
      ContainsAnyIff(s, ps[1..]);
      if exists k :: 0 <= k < |ps| && Contains(s, ps[k]) {
        var k :| 0 <= k < |ps| && Contains(s, ps[k]);
        if k > 0 {
          assert ps[1..][k - 1] == ps[k];
        }
      }
    }
  }

  /** `xs.join(sep)` in JavaScript, `sep.join(xs)` in Python. */
  function Join(xs: seq<string>, sep: string): string {
    if |xs| == 0 then "" else if |xs| == 1 then xs[0] else xs[0] + sep + Join(xs[1..], sep)
  }

  /** For a search term without spaces, searching a space-joined sentence is
      searching each of its words. */
  lemma {:induction false} ContainsJoinedWords(ws: seq<string>, p: string)
    requires ' ' !in p
    ensures Contains(Join(ws, " "), p) <==> Contains("", p) || exists w :: w in ws && Contains(w, p)
  {
    if |ws| == 0 {
    } else if |ws| == 1 {
      assert ws[0] in ws;
      ContainsAppend(ws[0], "", p);
      assert ws[0] + "" == ws[0];
      ContainsEmpty(ws[0], p);
    } else {
      ContainsJoinedWords(ws[1..], p);
      ContainsAroundSeparator(ws[0], ' ', Join(ws[1..], " "), p);
      assert ws[0] + " " + Join(ws[1..], " ") == ws[0] + [' '] + Join(ws[1..], " ");
      assert ws[0] in ws;
      ContainsEmpty(ws[0], p);
      forall w | w in ws[1..] ensures w in ws {
      }
      if exists w :: w in ws && Contains(w, p) {
        var w :| w in ws && Contains(w, p);
        if w != ws[0] {
          assert w in ws[1..];
        }
      }
    }
  }

  /** Whatever occurs in one piece occurs in the joined text. */
  lemma {:induction false} ContainsInJoin(xs: seq<string>, sep: string, k: int, p: string)
    requires 0 <= k < |xs| && Contains(xs[k], p)
    ensures Contains(Join(xs, sep), p)
  {
    if |xs| > 1 {
      if k == 0 {
        ContainsAppend(xs[0], sep + Join(xs[1..], sep), p);
        assert xs[0] + sep + Join(xs[1..], sep) == xs[0] + (sep + Join(xs[1..], sep));
      } else {
        ContainsInJoin(xs[1..], sep, k - 1, p);
        ContainsAppend(xs[0] + sep, Join(xs[1..], sep), p);
      }
    }
  }

  lemma ContainsEmpty(s: string, p: string)
    ensures Contains("", p) ==> Contains(s, p)
  {
    ContainsAppend(s, "", p);
    assert s + "" == s;
  }

  /** A property of characters that holds throughout the pieces and the
      separator holds throughout the joined text. */
  lemma {:induction false} JoinKeeps(xs: seq<string>, sep: string, P: char -> bool)
    requires forall i :: 0 <= i < |sep| ==> P(sep[i])
    requires forall k, i :: 0 <= k < |xs| && 0 <= i < |xs[k]| ==> P(xs[k][i])
    ensures forall i :: 0 <= i < |Join(xs, sep)| ==> P(Join(xs, sep)[i])
  {
    if |xs| > 1 {
      JoinKeeps(xs[1..], sep, P);
      var a, b := xs[0], Join(xs[1..], sep);
      assert Join(xs, sep) == a + sep + b;
      forall i | 0 <= i < |a + sep + b| ensures P((a + sep + b)[i]) {
        if i < |a| {
          assert (a + sep + b)[i] == xs[0][i];
        } else if i < |a| + |sep| {
          assert (a + sep + b)[i] == sep[i - |a|];
        } else {
          assert (a + sep + b)[i] == b[i - |a| - |sep|];
        }
      }
    } else if |xs| == 1 {
      assert forall i :: 0 <= i < |xs[0]| ==> P(xs[0][i]);
    }
  }

  /** `s.split(c)`: the pieces between occurrences of `c`. */
  function Split(s: string, c: char): (r: seq<string>)
    ensures |r| >= 1
    decreases |s|
  {
    if |s| == 0 then [""]
    else if s[0] == c then [""] + Split(s[1..], c)
    else var rest := Split(s[1..], c); [[s[0]] + rest[0]] + rest[1..]
  }

  lemma {:induction false} SplitWithoutSeparator(s: string, c: char)
    requires c !in s
    ensures Split(s, c) == [s]
  {
    if |s| > 0 {
      SplitWithoutSeparator(s[1..], c);
      assert [s[0]] + s[1..] == s;
    }
  }

  lemma {:induction false} SplitAfterPiece(x: string, c: char, rest: string)
    requires c !in x
    ensures Split(x + [c] + rest, c) == [x] + Split(rest, c)
  {
    if |x| == 0 {
      assert x + [c] + rest == [c] + rest;
      assert ([c] + rest)[1..] == rest;
    } else {
      SplitAfterPiece(x[1..], c, rest);
      assert (x + [c] + rest)[1..] == x[1..] + [c] + rest;
      assert [x[0]] + x[1..] == x;
    }
  }

  /** Splitting undoes joining when no piece contains the separator. */
  lemma {:induction false} SplitJoin(xs: seq<string>, c: char)
    requires |xs| >= 1
    requires forall k :: 0 <= k < |xs| ==> c !in xs[k]
    ensures Split(Join(xs, [c]), c) == xs
  {
    if |xs| == 1 {
      SplitWithoutSeparator(xs[0], c);
    } else {
      SplitJoin(xs[1..], c);
      SplitAfterPiece(xs[0], c, Join(xs[1..], [c]));
      assert [xs[0]] + xs[1..] == xs;
    }
  }

  /** Joining undoes splitting, for every text. */
  lemma {:induction false} JoinSplit(s: string, c: char)
    ensures Join(Split(s, c), [c]) == s
  {
    if |s| > 0 {
      JoinSplit(s[1..], c);
      var rest := Split(s[1..], c);
      if s[0] == c {
        assert [""] + rest == [""] + rest;
        if |rest| == 1 {
          assert Join([""] + rest, [c]) == "" + [c] + rest[0];
        } else {
          assert ([""] + rest)[1..] == rest;
        }
        assert s == [c] + s[1..];
      } else {
        var r := [[s[0]] + rest[0]] + rest[1..];
        if |rest| == 1 {
          assert Join(r, [c]) == [s[0]] + rest[0];
        } else {
          assert r[1..] == rest[1..];
          assert Join(rest, [c]) == rest[0] + [c] + Join(rest[1..], [c]);
        }
        assert s == [s[0]] + s[1..];
      }
    }
  }
}
