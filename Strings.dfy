/**
 * The string primitives the translator relies on: `String.prototype.trim`,
 * `toLowerCase`, `indexOf`, `replace` with a string pattern, and `split("\n")`.
 */
module Strings {

  /** ECMAScript WhiteSpace and LineTerminator code points: the characters `trim` removes. */
  predicate IsSpace(c: char) {
    var n := c as int;
    n == 0x09 || n == 0x0A || n == 0x0B || n == 0x0C || n == 0x0D || n == 0x20 || n == 0xA0
    || n == 0x1680 || (0x2000 <= n <= 0x200A) || n == 0x2028 || n == 0x2029 || n == 0x202F
    || n == 0x205F || n == 0x3000 || n == 0xFEFF
  }

  predicate AllSpace(s: string) {
    forall i :: 0 <= i < |s| ==> IsSpace(s[i])
  }

  /** The length of the run of whitespace that starts `s`. */
  function LeadingSpace(s: string): (n: nat)
    ensures n <= |s|
    ensures AllSpace(s[..n])
    ensures n < |s| ==> !IsSpace(s[n])
  {
    if |s| > 0 && IsSpace(s[0]) then
      var m := LeadingSpace(s[1..]);
      assert s[..1 + m] == [s[0]] + s[1..][..m];
      1 + m
    else
      0
  }

  /** The length of the run of whitespace that ends `s`. */
  function TrailingSpace(s: string): (n: nat)
    ensures n <= |s|
    ensures AllSpace(s[|s| - n..])
    ensures n < |s| ==> !IsSpace(s[|s| - 1 - n])
  {
    if |s| > 0 && IsSpace(s[|s| - 1]) then
      var m := TrailingSpace(s[..|s| - 1]);
      SpaceSnoc(s, m);
      1 + m
    else
      0
  }

  /** A whitespace run that ends `s` minus its last character, followed by whitespace, ends `s`. */
  lemma SpaceSnoc(s: string, m: nat)
    requires |s| > 0 && IsSpace(s[|s| - 1]) && m < |s|
    requires AllSpace(s[..|s| - 1][|s| - 1 - m..])
    requires m < |s| - 1 ==> !IsSpace(s[..|s| - 1][|s| - 2 - m])
    ensures AllSpace(s[|s| - (1 + m)..])
    ensures 1 + m < |s| ==> !IsSpace(s[|s| - 2 - m])
  {
    var p := s[..|s| - 1];
    var t := s[|s| - (1 + m)..];
    forall i | 0 <= i < |t| ensures IsSpace(t[i]) {
      if i < m {
        assert t[i] == p[|p| - m..][i];
      }
    }
    if 1 + m < |s| {
      assert s[|s| - 2 - m] == p[|p| - 1 - m];
    }
  }

  /**
   * `s.trim()`: the span of `s` between its leading and its trailing whitespace.
   * It is empty exactly when `s` is all whitespace, and otherwise starts and ends
   * with a character that is not whitespace.
   */
  function Trim(s: string): (r: string)
    ensures LeadingSpace(s) + |r| <= |s|
    ensures r == s[LeadingSpace(s)..LeadingSpace(s) + |r|]
    ensures AllSpace(s[LeadingSpace(s) + |r|..])
    ensures r == "" <==> AllSpace(s)
    ensures r != "" ==> !IsSpace(r[0]) && !IsSpace(r[|r| - 1])
  {
    var n := LeadingSpace(s);
    var t := s[n..];
    var r := t[..|t| - TrailingSpace(t)];
    assert s[n + |r|..] == t[|t| - TrailingSpace(t)..];
    SpaceJoin(s, n);
    r
  }

  /** Two runs of whitespace make a run of whitespace. */
  lemma SpaceJoin(s: string, n: nat)
    requires n <= |s| && AllSpace(s[..n])
    ensures AllSpace(s[n..]) ==> AllSpace(s)
  {
    if AllSpace(s[n..]) {
      forall i | 0 <= i < |s| ensures IsSpace(s[i]) {
        if i < n { assert s[i] == s[..n][i]; } else { assert s[i] == s[n..][i - n]; }
      }
    }
  }

  /** A string that neither starts nor ends with whitespace is its own trim. */
  lemma TrimOfTrimmed(s: string)
    requires s == "" || (!IsSpace(s[0]) && !IsSpace(s[|s| - 1]))
    ensures Trim(s) == s
  {
    if s != "" {
      assert LeadingSpace(s) == 0;
      assert s[0..] == s;
      assert TrailingSpace(s) == 0;
    }
  }

  lemma {:induction false} LeadingSpaceAfterSpace(a: string, b: string)
    requires AllSpace(a)
    ensures LeadingSpace(a + b) == |a| + LeadingSpace(b)
    decreases |a|
  {
    if a == [] {
      assert a + b == b;
    } else {
      assert (a + b)[0] == a[0] && (a + b)[1..] == a[1..] + b;
      LeadingSpaceAfterSpace(a[1..], b);
    }
  }

  lemma {:induction false} TrailingSpaceBeforeSpace(a: string, b: string)
    requires AllSpace(b)
    ensures TrailingSpace(a + b) == |b| + TrailingSpace(a)
    decreases |b|
  {
    if b == [] {
      assert a + b == a;
    } else {
      assert (a + b)[|a + b| - 1] == b[|b| - 1] && (a + b)[..|a + b| - 1] == a + b[..|b| - 1];
      TrailingSpaceBeforeSpace(a, b[..|b| - 1]);
    }
  }

  /** Whitespace around a trimmed, non-empty text is exactly what `trim` removes. */
  lemma TrimPadded(pre: string, x: string, post: string)
    requires AllSpace(pre) && AllSpace(post)
    requires x != "" && !IsSpace(x[0]) && !IsSpace(x[|x| - 1])
    ensures LeadingSpace(pre + x + post) == |pre|
    ensures Trim(pre + x + post) == x
  {
    var s := pre + x + post;
    LeadingOfPadded(pre, x + post);
    assert s == pre + (x + post);
    assert s[|pre|..] == x + post;
    TrailingOfPadded(x, post);
    assert (x + post)[..|x|] == x;
  }

  lemma LeadingOfPadded(pre: string, t: string)
    requires AllSpace(pre) && t != "" && !IsSpace(t[0])
    ensures LeadingSpace(pre + t) == |pre|
  {
    LeadingSpaceAfterSpace(pre, t);
  }

  lemma TrailingOfPadded(x: string, post: string)
    requires AllSpace(post) && x != "" && !IsSpace(x[|x| - 1])
    ensures TrailingSpace(x + post) == |post|
  {
    TrailingSpaceBeforeSpace(x, post);
  }

  /** `trim` is idempotent. */
  lemma TrimIdempotent(s: string)
    ensures Trim(Trim(s)) == Trim(s)
  {
    TrimOfTrimmed(Trim(s));
  }

  /** ASCII `toUpperCase` of one character. */
  function UpperChar(c: char): (d: char)
  {
    if 'a' <= c <= 'z' then (c as int - 32) as char else c
  }

  /** ASCII `toLowerCase` of one character. */
  function LowerChar(c: char): (d: char)
  {
    if 'A' <= c <= 'Z' then (c as int + 32) as char else c
  }

  /** `s.toLowerCase()`, ASCII letters only: character by character, same length. */
  function Lower(s: string): (r: string)
    ensures |r| == |s|
    ensures forall i :: 0 <= i < |s| ==> r[i] == LowerChar(s[i])
  {
    if s == [] then [] else [LowerChar(s[0])] + Lower(s[1..])
  }

  /** A string without ASCII capitals is its own lower case. */
  lemma LowerOfLower(s: string)
    requires forall i :: 0 <= i < |s| ==> !('A' <= s[i] <= 'Z')
    ensures Lower(s) == s
  {
  }

  lemma LowerIdempotent(s: string)
    ensures Lower(Lower(s)) == Lower(s)
  {
  }

  /** Lower-casing a trimmed string leaves it trimmed: keys stored as `Lower(Trim(k))` are normal forms. */
  lemma LowerOfTrimmedIsTrimmed(s: string)
    ensures Trim(Lower(Trim(s))) == Lower(Trim(s))
  {
    var t := Trim(s);
    var l := Lower(t);
    if t != "" {
      assert l[0] == LowerChar(t[0]) && l[|l| - 1] == LowerChar(t[|t| - 1]);
    }
    TrimOfTrimmed(l);
  }

  /** `p` occurs in `s` starting at index `i`. */
  predicate OccursAt(s: string, p: string, i: int) {
    0 <= i && i + |p| <= |s| && s[i..i + |p|] == p
  }

  /** An occurrence of a non-empty `p` starts with `p`'s first character. */
  lemma OccursHead(s: string, p: string, i: int)
    requires p != ""
    ensures OccursAt(s, p, i) ==> s[i] == p[0]
  {
    if OccursAt(s, p, i) {
      assert s[i..i + |p|][0] == s[i];
    }
  }

  /** The first occurrence of `p` in `s` at or after `k`, or -1. */
  function IndexOfFrom(s: string, p: string, k: nat): (r: int)
    decreases |s| + 1 - k
    ensures r == -1 <==> forall i :: k <= i ==> !OccursAt(s, p, i)
    ensures r != -1 ==> k <= r && OccursAt(s, p, r)
    ensures r != -1 ==> forall i :: k <= i < r ==> !OccursAt(s, p, i)
  {
    if k + |p| > |s| then -1
    else if s[k..k + |p|] == p then assert OccursAt(s, p, k); k
    else IndexOfFrom(s, p, k + 1)
  }

  /** `s.indexOf(p)`. */
  function IndexOf(s: string, p: string): int
  {
    IndexOfFrom(s, p, 0)
  }

  /** `s.indexOf(c)` for a one-character pattern. */
  function IndexOfChar(s: string, c: char): (r: int)
    ensures r == -1 <==> c !in s
    ensures r != -1 ==> 0 <= r < |s| && s[r] == c && c !in s[..r]
  {
    if s == [] then -1
    else if s[0] == c then 0
    else
      var r := IndexOfChar(s[1..], c);
      if r == -1 then -1
      else
        assert s[..r + 1] == [s[0]] + s[1..][..r];
        r + 1
  }

  /** `s.replace(p, rep)` where `rep` is taken literally: the first occurrence of `p` becomes `rep`. */
  function ReplaceFirst(s: string, p: string, rep: string): string
  {
    var i := IndexOf(s, p);
    if i < 0 then s else s[..i] + rep + s[i + |p|..]
  }

  /**
   * ECMAScript GetSubstitution for a string pattern, which has no capture groups:
   * `$$` is `$`, `$&` the matched text, `` $` `` the text before the match, `$'` the
   * text after it; every other `$` stands for itself.
   */
  function Expand(tpl: string, matched: string, before: string, after: string): string
  {
    if tpl == [] then []
    else if tpl[0] == '$' && |tpl| >= 2 && tpl[1] == '$' then "$" + Expand(tpl[2..], matched, before, after)
    else if tpl[0] == '$' && |tpl| >= 2 && tpl[1] == '&' then matched + Expand(tpl[2..], matched, before, after)
    else if tpl[0] == '$' && |tpl| >= 2 && tpl[1] == '`' then before + Expand(tpl[2..], matched, before, after)
    else if tpl[0] == '$' && |tpl| >= 2 && tpl[1] == '\'' then after + Expand(tpl[2..], matched, before, after)
    else [tpl[0]] + Expand(tpl[1..], matched, before, after)
  }

  /** `s.replace(p, rep)` as JavaScript evaluates it: `rep` is a substitution template. */
  function JsReplaceFirst(s: string, p: string, rep: string): string
  {
    var i := IndexOf(s, p);
    if i < 0 then s
    else s[..i] + Expand(rep, s[i..i + |p|], s[..i], s[i + |p|..]) + s[i + |p|..]
  }

  /** Replacing a whole string by `rep` gives `rep`. */
  lemma ReplaceWhole(s: string, rep: string)
    ensures ReplaceFirst(s, s, rep) == rep
  {
    IndexOfSelf(s);
    assert s[..0] == [] && s[0 + |s|..] == [];
  }

  /** Replacing a whole string by `rep` as JavaScript reads it gives `rep` expanded. */
  lemma JsReplaceWhole(s: string, rep: string)
    ensures JsReplaceFirst(s, s, rep) == Expand(rep, s, "", "")
  {
    IndexOfSelf(s);
    var matched, before, after := s[0..0 + |s|], s[..0], s[0 + |s|..];
    assert matched == s && before == "" && after == "";
    var e := Expand(rep, s, "", "");
    assert JsReplaceFirst(s, s, rep) == before + e + after;
  }

  /** Replacing the first occurrence of `p`, found right after `before`, keeps `before` and `after`. */
  lemma ReplaceAt(s: string, p: string, rep: string, before: string, after: string)
    requires s == before + p + after && IndexOf(s, p) == |before|
    ensures ReplaceFirst(s, p, rep) == before + rep + after
  {
    var n := |before|;
    assert s[..n] == before && s[n + |p|..] == after;
  }

  /** The same replacement as JavaScript reads it: `rep` is expanded around the match. */
  lemma JsReplaceAt(s: string, p: string, rep: string, before: string, after: string)
    requires s == before + p + after && IndexOf(s, p) == |before|
    ensures JsReplaceFirst(s, p, rep) == before + Expand(rep, p, before, after) + after
  {
    var n := |before|;
    var m, b, a := s[n..n + |p|], s[..n], s[n + |p|..];
    assert m == p && b == before && a == after;
    var e := Expand(rep, p, before, after);
    assert JsReplaceFirst(s, p, rep) == b + e + a;
  }

  /** A string first occurs in itself at index 0. */
  lemma IndexOfSelf(s: string)
    ensures IndexOf(s, s) == 0
  {
    assert s[0..0 + |s|] == s;
  }

  /** A template without `$` expands to itself. */
  lemma {:induction false} ExpandLiteral(tpl: string, matched: string, before: string, after: string)
    requires '$' !in tpl
    ensures Expand(tpl, matched, before, after) == tpl
  {
    if tpl != [] {
      assert '$' !in tpl[1..];
      ExpandLiteral(tpl[1..], matched, before, after);
    }
  }

  /** Expansion runs left to right: a `$`-free head is copied as it stands. */
  lemma {:induction false} ExpandLiteralHead(x: string, y: string, matched: string, before: string, after: string)
    requires '$' !in x
    ensures Expand(x + y, matched, before, after) == x + Expand(y, matched, before, after)
  {
    if x != [] {
      assert (x + y)[0] == x[0] && (x + y)[1..] == x[1..] + y;
      assert '$' !in x[1..];
      ExpandLiteralHead(x[1..], y, matched, before, after);
    } else {
      assert x + y == y;
    }
  }

  /** `replace` with a replacement that holds no `$` is the literal replacement. */
  lemma JsReplaceLiteral(s: string, p: string, rep: string)
    requires '$' !in rep
    ensures JsReplaceFirst(s, p, rep) == ReplaceFirst(s, p, rep)
  {
    var i := IndexOf(s, p);
    if i >= 0 {
      var matched, before, after := s[i..i + |p|], s[..i], s[i + |p|..];
      ExpandLiteral(rep, matched, before, after);
      calc {
        JsReplaceFirst(s, p, rep);
        before + Expand(rep, matched, before, after) + after;
        before + rep + after;
        ReplaceFirst(s, p, rep);
      }
    }
  }

  /** `s.split("\n")`: the pieces between line feeds, never an empty list. */
  function SplitLines(s: string): (ls: seq<string>)
    decreases |s|
    ensures |ls| >= 1
    ensures forall i :: 0 <= i < |ls| ==> '\n' !in ls[i]
  {
    var i := IndexOfChar(s, '\n');
    if i < 0 then [s] else [s[..i]] + SplitLines(s[i + 1..])
  }

  /** `ls.join("\n")`. */
  function JoinLines(ls: seq<string>): string
  {
    if ls == [] then ""
    else if |ls| == 1 then ls[0]
    else ls[0] + "\n" + JoinLines(ls[1..])
  }

  /** Joining the pieces of a split gives back the text. */
  lemma {:induction false} JoinSplit(s: string)
    ensures JoinLines(SplitLines(s)) == s
    decreases |s|
  {
    var i := IndexOfChar(s, '\n');
    if i >= 0 {
      JoinSplit(s[i + 1..]);
      JoinSplitStep(s, i);
    }
  }

  /** The step of `JoinSplit`: the piece before the first line feed, then the rest joined back. */
  lemma JoinSplitStep(s: string, i: int)
    requires i == IndexOfChar(s, '\n') && i >= 0
    requires JoinLines(SplitLines(s[i + 1..])) == s[i + 1..]
    ensures JoinLines(SplitLines(s)) == s
  {
    SplitCons(s, i);
    JoinCons(s[..i], SplitLines(s[i + 1..]));
    CutAtLineFeed(s, i);
  }

  lemma SplitCons(s: string, i: int)
    requires i == IndexOfChar(s, '\n') && i >= 0
    ensures SplitLines(s) == [s[..i]] + SplitLines(s[i + 1..])
  {
    var ls := SplitLines(s);
    var rest := SplitLines(s[i + 1..]);
    assert ls == [s[..i]] + rest;
  }

  /** A string is its part before the line feed at `i`, that line feed and its part after. */
  lemma CutAtLineFeed(s: string, i: nat)
    requires i < |s| && s[i] == '\n'
    ensures s == s[..i] + "\n" + s[i + 1..]
  {
  }

  lemma JoinCons(a: string, rest: seq<string>)
    requires |rest| >= 1
    ensures JoinLines([a] + rest) == a + "\n" + JoinLines(rest)
  {
    assert ([a] + rest)[1..] == rest;
  }

  /** Splitting a join of line-free pieces gives back the pieces. */
  lemma {:induction false} SplitJoin(ls: seq<string>)
    requires |ls| >= 1
    requires forall i :: 0 <= i < |ls| ==> '\n' !in ls[i]
    ensures SplitLines(JoinLines(ls)) == ls
  {
    if |ls| > 1 {
      var s := JoinLines(ls);
      assert s == ls[0] + "\n" + JoinLines(ls[1..]);
      assert s[|ls[0]|] == '\n' && s[..|ls[0]|] == ls[0];
      assert IndexOfChar(s, '\n') == |ls[0]|;
      assert s[|ls[0]| + 1..] == JoinLines(ls[1..]);
      SplitJoin(ls[1..]);
    }
  }
}
