/**
 * The JavaScript string built-ins the two plugins rely on, modelled on
 * `seq<char>`: `String.prototype.trim`, `includes`, `replace` with a string
 * pattern (first occurrence only) and `split` on the character class `[,，]`.
 */
module JsStrings {

  /** The code points `trim` removes: ECMAScript WhiteSpace (which includes every
      Unicode space separator) together with LineTerminator. */
  predicate IsWhitespace(c: char)
  {
    || c == '\t' || c == '\U{000B}' || c == '\U{000C}' || c == ' '
    || c == '\U{00A0}' || c == '\U{FEFF}'
    || c == '\U{1680}' || ('\U{2000}' <= c <= '\U{200A}')
    || c == '\U{202F}' || c == '\U{205F}' || c == '\U{3000}'
    || c == '\n' || c == '\r' || c == '\U{2028}' || c == '\U{2029}'
  }

  predicate AllWhitespace(s: string)
  {
    forall i :: 0 <= i < |s| ==> IsWhitespace(s[i])
  }

  /** `s.trimStart()`: a suffix of `s` that does not start with whitespace. */
  function TrimStart(s: string): (r: string)
    ensures |r| <= |s| && r == s[|s| - |r|..]
    ensures r != [] ==> !IsWhitespace(r[0])
  {
    if s != [] && IsWhitespace(s[0]) then TrimStart(s[1..]) else s
  }

  /** `trimStart` removes only whitespace. */
  lemma {:induction false} TrimStartRemovesWhitespace(s: string)
    ensures AllWhitespace(s[..|s| - |TrimStart(s)|])
  {
    if s != [] && IsWhitespace(s[0]) {
      TrimStartRemovesWhitespace(s[1..]);
      var k := |s| - |TrimStart(s)|;
      forall i | 0 <= i < k ensures IsWhitespace(s[i]) {
        if i > 0 {
          assert s[i] == s[1..][i - 1];
        }
      }
    }
  }

  /** `s.trimEnd()`: a prefix of `s` that does not end with whitespace. */
  function TrimEnd(s: string): (r: string)
    ensures |r| <= |s| && r == s[..|r|]
    ensures r != [] ==> !IsWhitespace(r[|r| - 1])
  {
    if s != [] && IsWhitespace(s[|s| - 1]) then TrimEnd(s[..|s| - 1]) else s
  }

  /** `trimEnd` removes only whitespace. */
  lemma {:induction false} TrimEndRemovesWhitespace(s: string)
    ensures AllWhitespace(s[|TrimEnd(s)|..])
  {
    if s != [] && IsWhitespace(s[|s| - 1]) {
      var t := s[..|s| - 1];
      TrimEndRemovesWhitespace(t);
      var m := |TrimEnd(s)|;
      forall i | m <= i < |s| ensures IsWhitespace(s[i]) {
        if i < |s| - 1 {
          assert s[i] == t[i];
        }
      }
    }
  }

  /** `s.trim()`: the result neither starts nor ends with whitespace. */
  function Trim(s: string): (r: string)
    ensures |r| <= |s|
    ensures r != [] ==> !IsWhitespace(r[0]) && !IsWhitespace(r[|r| - 1])
  {
    TrimEnd(TrimStart(s))
  }

  /** What `trim` removes is whitespace at both ends and nothing else: `s` is
      the first `i` characters (all whitespace), the result, then whitespace. */
  lemma TrimShape(s: string) returns (i: nat, j: nat)
    ensures i <= j <= |s| && Trim(s) == s[i..j]
    ensures AllWhitespace(s[..i]) && AllWhitespace(s[j..])
  {
    var t := TrimStart(s);
    var r := TrimEnd(t);
    TrimStartRemovesWhitespace(s);
    TrimEndRemovesWhitespace(t);
    i, j := |s| - |t|, |s| - |t| + |r|;
    assert r == s[i..][..|r|];
    assert s[i..][..|r|] == s[i..j];
    assert s[j..] == t[|r|..];
  }

  lemma {:induction false} TrimStartOfTrimmed(s: string)
    requires s == [] || !IsWhitespace(s[0])
    ensures TrimStart(s) == s
  {
  }

  /** Trimming twice is trimming once. */
  lemma TrimIdempotent(s: string)
    ensures Trim(Trim(s)) == Trim(s)
  {
    var r := Trim(s);
    TrimStartOfTrimmed(r);
    assert TrimStart(r) == r;
    TrimEndOfTrimmed(r);
  }

  lemma {:induction false} TrimEndOfTrimmed(s: string)
    requires s == [] || !IsWhitespace(s[|s| - 1])
    ensures TrimEnd(s) == s
  {
  }

  /** `s.includes(sub)`. */
  predicate Includes(s: string, sub: string)
    ensures Includes(s, sub) ==> |sub| <= |s|
  {
    exists i :: 0 <= i <= |s| - |sub| && OccursAt(s, sub, i)
  }

  predicate OccursAt(s: string, pat: string, i: int)
  {
    0 <= i <= |s| - |pat| && s[i..i + |pat|] == pat
  }

  /** `s.replace(pat, rep)` with a string pattern: only the first occurrence of
      `pat` is replaced. The replacement is inserted literally; JavaScript's
      `$` substitution patterns are not modelled. */
  function ReplaceFirst(s: string, pat: string, rep: string): (r: string)
    ensures |r| == |s| || |r| == |s| - |pat| + |rep|
    decreases |s|
  {
    if |s| < |pat| then s
    else if s[..|pat|] == pat then rep + s[|pat|..]
    else [s[0]] + ReplaceFirst(s[1..], pat, rep)
  }

  /** Without an occurrence of `pat`, `replace` returns `s` as it is. */
  lemma {:induction false} ReplaceFirstAbsent(s: string, pat: string, rep: string)
    requires forall i :: 0 <= i <= |s| - |pat| ==> !OccursAt(s, pat, i)
    ensures ReplaceFirst(s, pat, rep) == s
    decreases |s|
  {
    if |s| >= |pat| {
      assert !OccursAt(s, pat, 0);
      assert s[..|pat|] != pat;
      forall j | 0 <= j <= |s| - 1 - |pat| ensures !OccursAt(s[1..], pat, j) {
        OccursShiftAt(s, pat, j);
      }
      ReplaceFirstAbsent(s[1..], pat, rep);
    }
  }

  /** With a first occurrence at `i`, exactly that one is replaced. */
  lemma {:induction false} ReplaceFirstPresent(s: string, pat: string, rep: string, i: int)
    requires OccursAt(s, pat, i)
    requires forall j :: 0 <= j < i ==> !OccursAt(s, pat, j)
    ensures ReplaceFirst(s, pat, rep) == s[..i] + rep + s[i + |pat|..]
    decreases |s|
  {
    if i == 0 {
      assert s[..|pat|] == pat;
    } else {
      var t := s[1..];
      assert !OccursAt(s, pat, 0);
      ReplaceFirstSkip(s, pat, rep);
      OccursShiftAt(s, pat, i - 1);
      forall j | 0 <= j < i - 1 ensures !OccursAt(t, pat, j) {
        OccursShiftAt(s, pat, j);
      }
      ReplaceFirstPresent(t, pat, rep, i - 1);
      SpliceAfterFirst(s, rep, i, i + |pat|);
    }
  }

  /** Splicing `rep` into the tail of `s` at `[i - 1, j - 1)` is splicing it
      into `s` at `[i, j)`. */
  lemma SpliceAfterFirst(s: string, rep: string, i: nat, j: nat)
    requires 1 <= i <= j <= |s|
    ensures [s[0]] + (s[1..][..i - 1] + rep + s[1..][j - 1..]) == s[..i] + rep + s[j..]
  {
    assert [s[0]] + s[1..][..i - 1] == s[..i];
    assert s[1..][j - 1..] == s[j..];
  }

  /** A string without the pattern at its start keeps its first character. */
  lemma ReplaceFirstSkip(s: string, pat: string, rep: string)
    requires |s| >= |pat| && |s| >= 1 && !OccursAt(s, pat, 0)
    ensures ReplaceFirst(s, pat, rep) == [s[0]] + ReplaceFirst(s[1..], pat, rep)
  {
    assert s[..|pat|] != pat;
  }

  /** An occurrence in `s[1..]` at `i` is an occurrence in `s` at `i + 1`, and back. */
  lemma OccursShiftAt(s: string, pat: string, i: nat)
    requires |s| >= 1
    ensures OccursAt(s[1..], pat, i) <==> OccursAt(s, pat, i + 1)
  {
    if i <= |s| - 1 - |pat| {
      assert s[1..][i..i + |pat|] == s[i + 1..i + 1 + |pat|];
    }
  }

  /** The separators of `split(/[,，]/)`: the ASCII comma and the full-width comma. */
  predicate IsKeySeparator(c: char)
  {
    c == ',' || c == '\U{FF0C}'
  }

  function CountSeparators(s: string): nat
  {
    if s == [] then 0 else (if IsKeySeparator(s[0]) then 1 else 0) + CountSeparators(s[1..])
  }

  /** `s.split(/[,，]/)`: one piece more than there are separators (so
      `"".split(...)` is `[""]`). */
  function SplitOnCommas(s: string): (pieces: seq<string>)
    ensures |pieces| == CountSeparators(s) + 1
  {
    if s == [] then [[]] else PrependChar(s[0], SplitOnCommas(s[1..]))
  }

  /** The pieces of `[c] + s` from the pieces of `s`: a separator starts a new
      first piece, any other character joins the first piece. */
  function PrependChar(c: char, pieces: seq<string>): (r: seq<string>)
    requires |pieces| >= 1
    ensures |r| == |pieces| + (if IsKeySeparator(c) then 1 else 0)
  {
    if IsKeySeparator(c) then [[]] + pieces else [[c] + pieces[0]] + pieces[1..]
  }

  /** `p` holds neither kind of comma. */
  predicate NoSeparator(p: string)
  {
    forall i :: 0 <= i < |p| ==> !IsKeySeparator(p[i])
  }

  /** No piece of the split holds a separator. */
  lemma {:induction false} SplitPiecesHaveNoSeparator(s: string)
    ensures forall p :: p in SplitOnCommas(s) ==> NoSeparator(p)
  {
    if s != [] {
      SplitPiecesHaveNoSeparator(s[1..]);
      var rest := SplitOnCommas(s[1..]);
      if !IsKeySeparator(s[0]) {
        var first := [s[0]] + rest[0];
        assert rest[0] in rest;
        assert NoSeparator(first) by {
          forall i | 0 <= i < |first| ensures !IsKeySeparator(first[i]) {
            if i > 0 {
              assert first[i] == rest[0][i - 1];
            }
          }
        }
        forall p | p in rest[1..] ensures p in rest {
          var n :| 0 <= n < |rest[1..]| && rest[1..][n] == p;
          assert rest[n + 1] == p;
        }
      }
    }
  }

  /** Trimming cuts characters off the ends only, so it cannot bring a
      separator in. */
  lemma TrimKeepsNoSeparator(p: string)
    requires NoSeparator(p)
    ensures NoSeparator(Trim(p))
  {
    var a, b := TrimShape(p);
    var t := Trim(p);
    forall i | 0 <= i < |t| ensures !IsKeySeparator(t[i]) {
      assert t[i] == p[a + i];
    }
  }

  /** Splitting at an ASCII comma splits the pieces there. */
  lemma {:induction false} SplitOnCommasAppend(a: string, b: string)
    ensures SplitOnCommas(a + "," + b) == SplitOnCommas(a) + SplitOnCommas(b)
  {
    if a == [] {
      assert a + "," + b == [','] + b;
      SplitCons(',', b);
    } else {
      var c, a' := a[0], a[1..];
      SplitOnCommasAppend(a', b);
      HeadTail(a, ",", b);
      SplitCons(c, a' + "," + b);
      SplitCons(c, a');
      PrependCharAppend(c, SplitOnCommas(a'), SplitOnCommas(b));
    }
  }

  /** The split of `[c] + s` is the split of `s` with `c` put in front. */
  lemma SplitCons(c: char, s: string)
    ensures SplitOnCommas([c] + s) == PrependChar(c, SplitOnCommas(s))
  {
    assert ([c] + s)[0] == c && ([c] + s)[1..] == s;
  }

  lemma HeadTail(a: string, sep: string, b: string)
    requires a != []
    ensures a == [a[0]] + a[1..]
    ensures a + sep + b == [a[0]] + (a[1..] + sep + b)
  {
  }

  /** Putting a character in front touches only the first piece, so it
      commutes with appending pieces behind. */
  lemma PrependCharAppend(c: char, pieces: seq<string>, more: seq<string>)
    requires |pieces| >= 1
    ensures PrependChar(c, pieces + more) == PrependChar(c, pieces) + more
  {
    assert (pieces + more)[1..] == pieces[1..] + more;
  }

  /** `pieces.join(sep)`. */
  function Join(pieces: seq<string>, sep: string): string
  {
    if pieces == [] then []
    else if |pieces| == 1 then pieces[0]
    else pieces[0] + sep + Join(pieces[1..], sep)
  }

  /** `s` with every full-width comma written as an ASCII comma. */
  function AsciiCommas(s: string): (r: string)
  {
    if s == [] then [] else [if IsKeySeparator(s[0]) then ',' else s[0]] + AsciiCommas(s[1..])
  }

  /** Splitting loses nothing but the kind of comma: joining the pieces with
      `,` gives back the input with its commas made ASCII. */
  lemma {:induction false} JoinSplit(s: string)
    ensures Join(SplitOnCommas(s), ",") == AsciiCommas(s)
  {
    if s != [] {
      JoinSplit(s[1..]);
      var rest := SplitOnCommas(s[1..]);
      var joined := Join(rest, ",");
      assert AsciiCommas(s) == [if IsKeySeparator(s[0]) then ',' else s[0]] + joined;
      if IsKeySeparator(s[0]) {
        var pieces := [[]] + rest;
        assert SplitOnCommas(s) == pieces;
        assert pieces[1..] == rest;
        assert Join(pieces, ",") == [] + "," + joined;
      } else {
        assert SplitOnCommas(s) == [[s[0]] + rest[0]] + rest[1..];
        JoinPrepend(rest, s[0], ",");
      }
    }
  }

  /** Putting a character in front of the first piece puts it in front of the join. */
  lemma JoinPrepend(pieces: seq<string>, c: char, sep: string)
    requires |pieces| >= 1
    ensures Join([[c] + pieces[0]] + pieces[1..], sep) == [c] + Join(pieces, sep)
  {
    var longer := [[c] + pieces[0]] + pieces[1..];
    if |pieces| > 1 {
      assert longer[1..] == pieces[1..];
      assert Join(longer, sep) == ([c] + pieces[0]) + sep + Join(pieces[1..], sep);
    }
  }
}
