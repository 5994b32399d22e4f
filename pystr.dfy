/**
 * The Python 2 `str` operations the installer relies on, on `seq<char>`:
 * `startswith`, `strip`, `rstrip(chars)`, `lower`, `ljust`, `split(sep)`,
 * `sep.join(parts)` and `replace(old, new)`.
 */
module PyStr {

  /** The bytes `str.isspace` accepts: space, tab, newline, vertical tab, form feed, carriage return. */
  const Whitespace: set<char> := {' ', '\t', '\n', 11 as char, 12 as char, '\r'}

  predicate StartsWith(s: string, prefix: string) {
    |prefix| <= |s| && s[..|prefix|] == prefix
  }

  /** `s.rstrip(chars)`: drop the longest suffix made only of characters in `cs`. */
  function TrimEnd(s: string, cs: set<char>): (r: string)
    ensures |r| <= |s| && r == s[..|r|]
    ensures r == [] || r[|r| - 1] !in cs
    ensures forall i :: |r| <= i < |s| ==> s[i] in cs
  {
    if |s| > 0 && s[|s| - 1] in cs then TrimEnd(s[..|s| - 1], cs) else s
  }

  /** `s.lstrip(chars)`: drop the longest prefix made only of characters in `cs`. */
  function TrimStart(s: string, cs: set<char>): (r: string)
    ensures |r| <= |s| && r == s[|s| - |r|..]
    ensures r == [] || r[0] !in cs
    ensures forall i :: 0 <= i < |s| - |r| ==> s[i] in cs
  {
    if |s| > 0 && s[0] in cs then TrimStart(s[1..], cs) else s
  }

  /** `s.strip()` with no argument. */
  function Strip(s: string): string {
    TrimStart(TrimEnd(s, Whitespace), Whitespace)
  }

  /** `Strip` keeps a contiguous middle slice, starting at `k`, and removes exactly the
      whitespace around it. */
  lemma StripSlice(s: string) returns (k: nat)
    ensures k + |Strip(s)| <= |s| && Strip(s) == s[k..k + |Strip(s)|]
    ensures forall i :: 0 <= i < k ==> s[i] in Whitespace
    ensures forall i :: k + |Strip(s)| <= i < |s| ==> s[i] in Whitespace
    ensures Strip(s) == [] || (Strip(s)[0] !in Whitespace && Strip(s)[|Strip(s)| - 1] !in Whitespace)
  {
    var t := TrimEnd(s, Whitespace);
    var r := TrimStart(t, Whitespace);
    assert Strip(s) == r;
    k := |t| - |r|;
    assert r == s[k..|t|] by {
      assert t == s[..|t|];
      assert r == t[k..];
    }
    assert forall i :: 0 <= i < k ==> s[i] in Whitespace by {
      forall i | 0 <= i < k
        ensures s[i] in Whitespace
      {
        assert s[i] == t[i];
      }
    }
  }

  /** A string with no whitespace at either end is its own `strip()`. */
  lemma StripKeeps(s: string)
    requires s != [] && s[0] !in Whitespace && s[|s| - 1] !in Whitespace
    ensures Strip(s) == s
  {
    assert TrimEnd(s, Whitespace) == s;
  }

  function LowerChar(c: char): (d: char)
    ensures 'A' <= c <= 'Z' ==> d as int == c as int + 32
    ensures !('A' <= c <= 'Z') ==> d == c
  {
    if 'A' <= c <= 'Z' then (c as int + 32) as char else c
  }

  /** `s.lower()` on a byte string: ASCII letters only. */
  function Lower(s: string): (r: string)
    ensures |r| == |s|
    ensures forall i :: 0 <= i < |s| ==> r[i] == LowerChar(s[i])
  {
    if s == [] then [] else [LowerChar(s[0])] + Lower(s[1..])
  }

  /** The only strings whose lower-case form is "y" are "y" and "Y". */
  lemma LowerIsY(s: string)
    ensures Lower(s) == "y" <==> s == "y" || s == "Y"
  {
    if Lower(s) == "y" {
      assert |s| == 1 && LowerChar(s[0]) == 'y';
      assert s == [s[0]];
    }
  }

  function Repeat(c: char, n: nat): (r: string)
    ensures |r| == n && forall i :: 0 <= i < n ==> r[i] == c
  {
    if n == 0 then [] else [c] + Repeat(c, n - 1)
  }

  /** `s.ljust(width, fill)`: pad on the right with `fill` up to `width`; never truncates. */
  function LJust(s: string, width: nat, fill: char): (r: string)
    ensures |r| == if |s| >= width then |s| else width
    ensures r[..|s|] == s
    ensures forall i :: |s| <= i < |r| ==> r[i] == fill
  {
    if |s| >= width then s else s + Repeat(fill, width - |s|)
  }

  /** `glue.join(parts)`. */
  function JoinWith(parts: seq<string>, glue: string): string
    requires |parts| >= 1
  {
    if |parts| == 1 then parts[0] else parts[0] + glue + JoinWith(parts[1..], glue)
  }

  /** `s.split(sep)` for a non-empty separator: the pieces between the non-overlapping
      occurrences of `sep`, found left to right. */
  function SplitOn(s: string, sep: string): (r: seq<string>)
    requires sep != []
    ensures |r| >= 1
    decreases |s|
  {
    if s == [] then [[]]
    else if StartsWith(s, sep) then [[]] + SplitOn(s[|sep|..], sep)
    else var rest := SplitOn(s[1..], sep); [[s[0]] + rest[0]] + rest[1..]
  }

  /** The first piece of a split is a prefix of the text. */
  lemma {:induction false} SplitOnHead(s: string, sep: string)
    requires sep != []
    ensures StartsWith(s, SplitOn(s, sep)[0])
    decreases |s|
  {
    if s != [] && !StartsWith(s, sep) {
      SplitOnHead(s[1..], sep);
      var head := SplitOn(s[1..], sep)[0];
      assert SplitOn(s, sep)[0] == [s[0]] + head;
      assert s[..|head| + 1] == [s[0]] + s[1..][..|head|];
    }
  }

  /** No piece of a split holds the separator: every occurrence of it is cut out. */
  lemma {:induction false} SplitOnPiecesFree(s: string, sep: string)
    requires sep != []
    ensures forall k, i :: 0 <= k < |SplitOn(s, sep)| ==> !OccursAt(SplitOn(s, sep)[k], sep, i)
    decreases |s|
  {
    if s == [] {
    } else if StartsWith(s, sep) {
      SplitOnPiecesFree(s[|sep|..], sep);
      assert SplitOn(s, sep) == [[]] + SplitOn(s[|sep|..], sep);
    } else {
      SplitOnPiecesFree(s[1..], sep);
      SplitOnHead(s[1..], sep);
      SplitOnCharFree(s, sep);
    }
  }

  /** The step of `SplitOnPiecesFree` where `s` starts with an ordinary character: the
      character joins the first piece without forming an occurrence, since the text does
      not start with the separator. */
  lemma SplitOnCharFree(s: string, sep: string)
    requires sep != [] && s != [] && !StartsWith(s, sep)
    requires StartsWith(s[1..], SplitOn(s[1..], sep)[0])
    requires forall k, i :: 0 <= k < |SplitOn(s[1..], sep)| ==> !OccursAt(SplitOn(s[1..], sep)[k], sep, i)
    ensures forall k, i :: 0 <= k < |SplitOn(s, sep)| ==> !OccursAt(SplitOn(s, sep)[k], sep, i)
  {
    var rest := SplitOn(s[1..], sep);
    var head := [s[0]] + rest[0];
    assert SplitOn(s, sep) == [head] + rest[1..];
    forall i | 0 <= i && i + |sep| <= |head|
      ensures !OccursAt(head, sep, i)
    {
      if i == 0 {
        assert head[..|sep|] == s[..|sep|];
      } else {
        assert head[i..i + |sep|] == rest[0][i - 1..i - 1 + |sep|];
        assert !OccursAt(rest[0], sep, i - 1);
      }
    }
  }

  /** Where a split makes its first cut: at the leftmost occurrence of the separator. The
      first piece is a prefix of the text in which no occurrence starts; a single piece is
      the whole text; with more pieces, the separator occurs right after the first piece
      and the remaining pieces are the split of the text after it. `FirstCutDetermines`
      shows that only the split itself satisfies this, overlapping separators included. */
  ghost predicate FirstCut(s: string, sep: string, r: seq<string>)
    requires sep != [] && |r| >= 1
  {
    StartsWith(s, r[0])
    && (forall i :: 0 <= i < |r[0]| ==> !OccursAt(s, sep, i))
    && (|r| == 1 ==> r[0] == s)
    && (|r| > 1 ==> OccursAt(s, sep, |r[0]|) && r[1..] == SplitOn(s[|r[0]| + |sep|..], sep))
  }

  /** A split cuts at the leftmost occurrence of the separator first, then splits the rest. */
  lemma {:induction false} SplitOnFirstCut(s: string, sep: string)
    requires sep != []
    ensures FirstCut(s, sep, SplitOn(s, sep))
    decreases |s|
  {
    if s == [] {
    } else if StartsWith(s, sep) {
      FirstCutSep(s, sep);
    } else {
      SplitOnFirstCut(s[1..], sep);
      var rest := SplitOn(s[1..], sep);
      assert SplitOn(s, sep) == [[s[0]] + rest[0]] + rest[1..];
      FirstCutCons(s, sep, rest, SplitOn(s, sep));
    }
  }

  /** The step of `SplitOnFirstCut` where `s` starts with the separator. */
  lemma FirstCutSep(s: string, sep: string)
    requires sep != [] && StartsWith(s, sep)
    ensures FirstCut(s, sep, SplitOn(s, sep))
  {
    var r := SplitOn(s, sep);
    assert r == [[]] + SplitOn(s[|sep|..], sep);
    assert OccursAt(s, sep, 0);
    assert r[1..] == SplitOn(s[|sep|..], sep);
  }

  /** The step of `SplitOnFirstCut` where `s` starts with an ordinary character, which
      joins the first piece of the split of `s[1..]`. */
  lemma FirstCutCons(s: string, sep: string, rest: seq<string>, r: seq<string>)
    requires sep != [] && s != [] && !StartsWith(s, sep) && |rest| >= 1
    requires FirstCut(s[1..], sep, rest)
    requires r == [[s[0]] + rest[0]] + rest[1..]
    ensures FirstCut(s, sep, r)
  {
    ConsFirstPiece(s[0], rest);
    ConsPrefix(s, rest[0]);
    FirstCutHead(s, sep, rest[0]);
    if |rest| == 1 {
      assert [s[0]] + s[1..] == s;
    } else {
      FirstCutTail(s, sep, |rest[0]|, rest[1..]);
    }
  }

  /** Prefixing the first piece with a character keeps the later pieces. */
  lemma ConsFirstPiece(c: char, parts: seq<string>)
    requires |parts| >= 1
    ensures var q := [[c] + parts[0]] + parts[1..];
      |q| == |parts| && q[0] == [c] + parts[0] && q[1..] == parts[1..]
  {
  }

  /** A prefix of `s[1..]` preceded by `s[0]` is a prefix of `s`. */
  lemma ConsPrefix(s: string, head: string)
    requires s != [] && StartsWith(s[1..], head)
    ensures StartsWith(s, [s[0]] + head)
  {
    assert s[..|head| + 1] == [s[0]] + s[1..][..|head|];
  }

  /** Only the split of `s` makes its first cut where `FirstCut` says: the first piece
      ends at the leftmost occurrence of the separator, or at the end of the text when
      there is none, and the rest is fixed by the split of what follows. */
  lemma FirstCutDetermines(s: string, sep: string, r: seq<string>)
    requires sep != [] && |r| >= 1 && FirstCut(s, sep, r)
    ensures r == SplitOn(s, sep)
  {
    SplitOnFirstCut(s, sep);
    var q := SplitOn(s, sep);
    assert |r[0]| == |q[0]| by {
      CutsAgree(s, sep, r, q);
      CutsAgree(s, sep, q, r);
    }
    assert r[0] == s[..|r[0]|] == q[0];
    if |r| == 1 {
      assert |q| == 1 by { CutsAgree(s, sep, q, r); }
      assert r == [r[0]];
      assert q == [q[0]];
    } else {
      assert |q| > 1 by { CutsAgree(s, sep, r, q); }
      assert r == [r[0]] + r[1..];
      assert q == [q[0]] + q[1..];
    }
  }

  /** Two piece lists that both satisfy `FirstCut` for `s` cannot have the first cut of
      one before that of the other, and the one with a cut has no fewer pieces. */
  lemma CutsAgree(s: string, sep: string, r: seq<string>, q: seq<string>)
    requires sep != [] && |r| >= 1 && |q| >= 1
    requires FirstCut(s, sep, r) && FirstCut(s, sep, q)
    ensures |r[0]| <= |q[0]|
    ensures |r| > 1 ==> |q| > 1
  {
    if |r| > 1 {
      assert OccursAt(s, sep, |r[0]|);
      assert |r[0]| < |s|;
    }
  }

  /** The later pieces after a cut in `s[1..]` are those after the same cut in `s`. */
  lemma FirstCutTail(s: string, sep: string, m: nat, later: seq<string>)
    requires sep != [] && s != []
    requires OccursAt(s[1..], sep, m)
    requires later == SplitOn(s[1..][m + |sep|..], sep)
    ensures OccursAt(s, sep, m + 1) && later == SplitOn(s[m + 1 + |sep|..], sep)
  {
    OccursShift(s, sep, m);
    assert s[1..][m + |sep|..] == s[m + 1 + |sep|..];
  }

  /** A character that does not start the separator, followed by a piece in which no
      occurrence starts, gives a piece in which no occurrence starts. */
  lemma FirstCutHead(s: string, sep: string, head: string)
    requires sep != [] && s != [] && !StartsWith(s, sep)
    requires forall i :: 0 <= i < |head| ==> !OccursAt(s[1..], sep, i)
    ensures forall i :: 0 <= i < |head| + 1 ==> !OccursAt(s, sep, i)
  {
    forall i | 0 < i < |head| + 1
      ensures !OccursAt(s, sep, i)
    {
      OccursShift(s, sep, i - 1);
    }
  }

  /** Dropping the first character moves every occurrence one place to the left. */
  lemma OccursShift(s: string, sep: string, i: nat)
    requires s != []
    ensures OccursAt(s[1..], sep, i) <==> OccursAt(s, sep, i + 1)
  {
    if i + |sep| <= |s| - 1 {
      assert s[1..][i..i + |sep|] == s[i + 1..i + 1 + |sep|];
    }
  }

  /** Joining the pieces back with the separator gives the original string. */
  lemma {:induction false} JoinSplitOn(s: string, sep: string)
    requires sep != []
    ensures JoinWith(SplitOn(s, sep), sep) == s
    decreases |s|
  {
    if s == [] {
    } else if StartsWith(s, sep) {
      JoinSplitOn(s[|sep|..], sep);
      JoinSplitOnSeparator(s, sep);
    } else {
      JoinSplitOn(s[1..], sep);
      JoinSplitOnChar(s, sep);
    }
  }

  /** The step of `JoinSplitOn` where `s` starts with the separator. */
  lemma JoinSplitOnSeparator(s: string, sep: string)
    requires sep != [] && StartsWith(s, sep) && s != []
    requires JoinWith(SplitOn(s[|sep|..], sep), sep) == s[|sep|..]
    ensures JoinWith(SplitOn(s, sep), sep) == s
  {
    var rest := SplitOn(s[|sep|..], sep);
    assert SplitOn(s, sep) == [[]] + rest;
    JoinConsEmpty(rest, sep);
    assert sep + s[|sep|..] == s;
  }

  /** An empty first part contributes only the glue. */
  lemma JoinConsEmpty(parts: seq<string>, glue: string)
    requires |parts| >= 1
    ensures JoinWith([[]] + parts, glue) == glue + JoinWith(parts, glue)
  {
    assert ([[]] + parts)[1..] == parts;
  }

  /** The step of `JoinSplitOn` where `s` starts with an ordinary character. */
  lemma JoinSplitOnChar(s: string, sep: string)
    requires sep != [] && !StartsWith(s, sep) && s != []
    requires JoinWith(SplitOn(s[1..], sep), sep) == s[1..]
    ensures JoinWith(SplitOn(s, sep), sep) == s
  {
    var rest := SplitOn(s[1..], sep);
    assert SplitOn(s, sep) == [[s[0]] + rest[0]] + rest[1..];
    JoinConsChar(s[0], rest, sep);
    assert [s[0]] + s[1..] == s;
  }

  /** Prefixing the first part with a character prefixes the joined string with it. */
  lemma JoinConsChar(c: char, parts: seq<string>, glue: string)
    requires |parts| >= 1
    ensures JoinWith([[c] + parts[0]] + parts[1..], glue) == [c] + JoinWith(parts, glue)
  {
    var q := [[c] + parts[0]] + parts[1..];
    if |parts| > 1 {
      assert q[1..] == parts[1..];
      assert JoinWith(q, glue) == ([c] + parts[0]) + glue + JoinWith(parts[1..], glue);
    }
  }

  /** A text starts with the one-character string `[c]` exactly when its first character is `c`. */
  lemma StartsWithChar(s: string, c: char)
    ensures StartsWith(s, [c]) <==> s != [] && s[0] == c
  {
    if s != [] {
      assert s[..1] == [s[0]];
    }
  }

  /** Splitting on a character cuts off a head free of it at the first occurrence. */
  lemma {:induction false} SplitPrefix(p: string, c: char, rest: string)
    requires c !in p
    ensures SplitOn(p + [c] + rest, [c]) == [p] + SplitOn(rest, [c])
    decreases |p|
  {
    var s := p + [c] + rest;
    StartsWithChar(s, c);
    if p == [] {
      assert s[1..] == rest;
    } else {
      assert s[0] == p[0];
      assert s[1..] == p[1..] + [c] + rest;
      SplitPrefix(p[1..], c, rest);
      assert [p[0]] + p[1..] == p;
    }
  }

  /** A text without the character splits on it into itself. */
  lemma {:induction false} SplitNoSep(p: string, c: char)
    requires c !in p
    ensures SplitOn(p, [c]) == [p]
    decreases |p|
  {
    if p != [] {
      StartsWithChar(p, c);
      SplitNoSep(p[1..], c);
      assert [p[0]] + p[1..] == p;
    }
  }

  /** Splitting on a character undoes joining with it, when no piece holds the character. */
  lemma {:induction false} SplitJoin(parts: seq<string>, c: char)
    requires |parts| >= 1
    requires forall i :: 0 <= i < |parts| ==> c !in parts[i]
    ensures SplitOn(JoinWith(parts, [c]), [c]) == parts
    decreases |parts|
  {
    if |parts| == 1 {
      SplitNoSep(parts[0], c);
    } else {
      SplitJoin(parts[1..], c);
      SplitPrefix(parts[0], c, JoinWith(parts[1..], [c]));
      assert [parts[0]] + parts[1..] == parts;
    }
  }

  /** No piece of a split on a character holds the character. */
  lemma SplitCharPiecesFree(s: string, c: char)
    ensures forall k :: 0 <= k < |SplitOn(s, [c])| ==> c !in SplitOn(s, [c])[k]
  {
    SplitOnPiecesFree(s, [c]);
    forall k, j | 0 <= k < |SplitOn(s, [c])| && 0 <= j < |SplitOn(s, [c])[k]|
      ensures SplitOn(s, [c])[k][j] != c
    {
      var piece := SplitOn(s, [c])[k];
      assert !OccursAt(piece, [c], j);
      assert piece[j..j + 1] == [piece[j]];
    }
  }

  /** `s.replace(needle, replacement)`: every non-overlapping occurrence of `needle`, found
      left to right, is replaced; the inserted text is never scanned again. An empty
      `needle` matches before every character and at the end. */
  function ReplaceAll(s: string, needle: string, replacement: string): string
    decreases |s|
  {
    if needle == [] then
      (if s == [] then replacement else replacement + [s[0]] + ReplaceAll(s[1..], needle, replacement))
    else if s == [] then []
    else if StartsWith(s, needle) then replacement + ReplaceAll(s[|needle|..], needle, replacement)
    else [s[0]] + ReplaceAll(s[1..], needle, replacement)
  }

  /** For a non-empty needle, `s.replace(needle, r) == r.join(s.split(needle))`. */
  lemma {:induction false} ReplaceAllJoinsPieces(s: string, needle: string, replacement: string)
    requires needle != []
    ensures ReplaceAll(s, needle, replacement) == JoinWith(SplitOn(s, needle), replacement)
    decreases |s|
  {
    if s == [] {
    } else if StartsWith(s, needle) {
      ReplaceAllJoinsPieces(s[|needle|..], needle, replacement);
      var rest := SplitOn(s[|needle|..], needle);
      assert SplitOn(s, needle) == [[]] + rest;
      JoinConsEmpty(rest, replacement);
    } else {
      ReplaceAllJoinsPieces(s[1..], needle, replacement);
      var rest := SplitOn(s[1..], needle);
      assert SplitOn(s, needle) == [[s[0]] + rest[0]] + rest[1..];
      JoinConsChar(s[0], rest, replacement);
    }
  }

  /** Replacing a string by itself changes nothing. */
  lemma {:induction false} ReplaceAllSelf(s: string, needle: string)
    ensures ReplaceAll(s, needle, needle) == s
    decreases |s|
  {
    if s == [] {
    } else if needle == [] {
      ReplaceAllSelf(s[1..], needle);
      assert [s[0]] + s[1..] == s;
    } else {
      ReplaceAllJoinsPieces(s, needle, needle);
      JoinSplitOn(s, needle);
    }
  }

  predicate OccursAt(s: string, needle: string, i: int) {
    0 <= i && i + |needle| <= |s| && s[i..i + |needle|] == needle
  }

  /** A string in which a non-empty needle does not occur is left unchanged. */
  lemma {:induction false} ReplaceAllAbsent(s: string, needle: string, replacement: string)
    requires needle != []
    requires forall i :: 0 <= i <= |s| ==> !OccursAt(s, needle, i)
    ensures ReplaceAll(s, needle, replacement) == s
    decreases |s|
  {
    if s != [] {
      assert !OccursAt(s, needle, 0);
      forall i | 0 <= i <= |s[1..]|
        ensures !OccursAt(s[1..], needle, i)
      {
        assert !OccursAt(s, needle, i + 1);
        if i + |needle| <= |s[1..]| {
          assert s[1..][i..i + |needle|] == s[i + 1..i + 1 + |needle|];
        }
      }
      ReplaceAllAbsent(s[1..], needle, replacement);
      assert [s[0]] + s[1..] == s;
    }
  }

  /** The one-character strings of `s`, in order. */
  function Chars(s: string): (r: seq<string>)
    ensures |r| == |s| && forall i :: 0 <= i < |s| ==> r[i] == [s[i]]
  {
    if s == [] then [] else [[s[0]]] + Chars(s[1..])
  }

  /** With an empty needle the replacement goes before every character and at the end:
      `s.replace("", v) == v.join([""] + list(s) + [""])`. */
  lemma {:induction false} ReplaceAllEmpty(s: string, replacement: string)
    ensures ReplaceAll(s, [], replacement) == JoinWith([[]] + Chars(s) + [[]], replacement)
    decreases |s|
  {
    if s == [] {
      assert [[]] + Chars(s) + [[]] == [[], []];
    } else {
      ReplaceAllEmpty(s[1..], replacement);
      var tail := Chars(s[1..]) + [[]];
      assert [[]] + Chars(s) + [[]] == [[]] + ([[s[0]]] + tail);
      assert [[]] + Chars(s[1..]) + [[]] == [[]] + tail;
      JoinConsEmpty([[s[0]]] + tail, replacement);
      JoinConsEmpty(tail, replacement);
      assert ([[s[0]]] + tail)[1..] == tail;
    }
  }

  /** A non-empty string replaced in itself becomes the replacement. */
  lemma ReplaceAllWhole(s: string, replacement: string)
    requires s != []
    ensures ReplaceAll(s, s, replacement) == replacement
  {
    assert StartsWith(s, s);
    assert s[|s|..] == [];
  }

}
