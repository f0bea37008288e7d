/**
 * The string operations the controller applies to queries and answers:
 * Python's `str.strip()`, `str.lower()`, `str.split(". ")` and `sep.join(pieces)`,
 * over strings as sequences of Unicode code points (Python's `len` counts the same).
 */
module Text {

  /** Python's `str.isspace` for one code point: the characters `strip()` removes. */
  predicate IsSpace(c: char) {
    c == ' ' || ('\t' <= c <= '\r') || ('\U{1C}' <= c <= '\U{1F}')
    || c == '\U{85}' || c == '\U{A0}' || c == '\U{1680}'
    || ('\U{2000}' <= c <= '\U{200A}') || c == '\U{2028}' || c == '\U{2029}'
    || c == '\U{202F}' || c == '\U{205F}' || c == '\U{3000}'
  }

  /** Every character of `s` in positions `lo` up to (not including) `hi` is whitespace. */
  predicate SpaceBetween(s: string, lo: int, hi: int) {
    forall i :: lo <= i < hi && 0 <= i < |s| ==> IsSpace(s[i])
  }

  predicate AllSpace(s: string) {
    SpaceBetween(s, 0, |s|)
  }

  /** The first position at or after `i` that does not hold whitespace (or `|s|`). */
  function SkipSpace(s: string, i: nat): (r: nat)
    requires i <= |s|
    ensures i <= r <= |s| && SpaceBetween(s, i, r)
    ensures r < |s| ==> !IsSpace(s[r])
    decreases |s| - i
  {
    if i < |s| && IsSpace(s[i]) then SkipSpace(s, i + 1) else i
  }

  /** The end of `s[lo..j]` once its trailing whitespace is dropped. */
  function SkipSpaceBack(s: string, lo: nat, j: nat): (r: nat)
    requires lo <= j <= |s|
    ensures lo <= r <= j && SpaceBetween(s, r, j)
    ensures lo < r ==> !IsSpace(s[r - 1])
    decreases j
  {
    if lo < j && IsSpace(s[j - 1]) then SkipSpaceBack(s, lo, j - 1) else j
  }

  /** Python's `s.strip()`: leading whitespace removed, then trailing whitespace. */
  function Strip(s: string): string {
    var i := SkipSpace(s, 0);
    s[i..SkipSpaceBack(s, i, |s|)]
  }

  /**
   * What `strip()` promises: the result is a contiguous slice of `s`, everything cut
   * off on either side is whitespace, and the result neither starts nor ends with it.
   */
  lemma StripIsTrimmedSlice(s: string)
    ensures exists i, j :: (0 <= i <= j <= |s| && Strip(s) == s[i..j]
                            && SpaceBetween(s, 0, i) && SpaceBetween(s, j, |s|))
    ensures Strip(s) == [] || (!IsSpace(Strip(s)[0]) && !IsSpace(Strip(s)[|Strip(s)| - 1]))
  {
    var i := SkipSpace(s, 0);
    var j := SkipSpaceBack(s, i, |s|);
    assert Strip(s) == s[i..j];
    if i < j {
      assert Strip(s)[0] == s[i];
    }
  }

  /** A stripped string is blank exactly when the original held only whitespace. */
  lemma StripEmptyIffAllSpace(s: string)
    ensures Strip(s) == [] <==> AllSpace(s)
  {
    var i := SkipSpace(s, 0);
    var j := SkipSpaceBack(s, i, |s|);
    if i < |s| {
      assert !IsSpace(s[i]);
      assert i < j;
    }
  }

  /** A string that neither starts nor ends with whitespace is left alone by stripping. */
  lemma StripUnchangedWithoutOuterSpace(s: string)
    requires |s| > 0 && !IsSpace(s[0]) && !IsSpace(s[|s| - 1])
    ensures Strip(s) == s
  {
    assert SkipSpace(s, 0) == 0;
  }

  /** A string that starts with a non-space character keeps it after stripping. */
  lemma StripKeepsFirst(s: string)
    requires |s| > 0 && !IsSpace(s[0])
    ensures Strip(s) != [] && Strip(s)[0] == s[0]
  {
    assert SkipSpace(s, 0) == 0;
    assert SkipSpaceBack(s, 0, |s|) > 0;
  }

  /** Python's `str.lower()` on one code point, for the ASCII letters. */
  function LowerChar(c: char): char {
    if 'A' <= c <= 'Z' then (c as int + 32) as char else c
  }

  predicate IsUpper(c: char) {
    'A' <= c <= 'Z'
  }

  /** Python's `s.lower()`, letter by letter. */
  function Lower(s: string): string {
    seq(|s|, i requires 0 <= i < |s| => LowerChar(s[i]))
  }

  /** A lowered string holds no upper-case letter, so a key that holds one never equals it. */
  lemma LowerHasNoUpper(s: string)
    ensures |Lower(s)| == |s|
    ensures forall i :: 0 <= i < |Lower(s)| ==> !IsUpper(Lower(s)[i])
  {
  }

  // ----- split on ". " and join -----

  /** `s` has the sentence break ". " starting at position `i`. */
  predicate BreakAt(s: string, i: int) {
    0 <= i && i + 1 < |s| && s[i] == '.' && s[i + 1] == ' '
  }

  /** `s` holds no ". " anywhere. */
  predicate NoBreak(s: string) {
    forall i :: 0 <= i < |s| - 1 ==> !BreakAt(s, i)
  }

  /**
   * Python's `s.split(". ")`: the pieces between the occurrences of ". ", found left
   * to right. Always at least one piece; a string without ". " is its own only piece.
   */
  function Split(s: string): (r: seq<string>)
    ensures |r| >= 1
  {
    if |s| < 2 then [s]
    else if s[0] == '.' && s[1] == ' ' then [""] + Split(s[2..])
    else
      var rest := Split(s[1..]);
      [[s[0]] + rest[0]] + rest[1..]
  }

  /** Python's `sep.join(pieces)`. */
  function Join(pieces: seq<string>, sep: string): string {
    if |pieces| == 0 then ""
    else if |pieces| == 1 then pieces[0]
    else pieces[0] + sep + Join(pieces[1..], sep)
  }

  lemma JoinCons(p: string, rest: seq<string>, sep: string)
    requires |rest| >= 1
    ensures Join([p] + rest, sep) == p + sep + Join(rest, sep)
  {
    assert ([p] + rest)[1..] == rest;
  }

  /** Gluing `c` onto the first piece glues it onto the joined string. */
  lemma JoinPrependFirst(c: char, pieces: seq<string>, sep: string)
    requires |pieces| >= 1
    ensures Join([[c] + pieces[0]] + pieces[1..], sep) == [c] + Join(pieces, sep)
  {
    if |pieces| > 1 {
      JoinCons([c] + pieces[0], pieces[1..], sep);
    }
  }

  /** Rejoining the pieces of `split(". ")` with ". " gives back the original string. */
  lemma {:induction false} JoinSplit(s: string)
    ensures Join(Split(s), ". ") == s
  {
    if |s| < 2 {
    } else if s[0] == '.' && s[1] == ' ' {
      var rest := Split(s[2..]);
      assert Split(s) == [""] + rest;
      JoinSplit(s[2..]);
      JoinCons("", rest, ". ");
      assert s == ". " + s[2..];
    } else {
      var rest := Split(s[1..]);
      assert Split(s) == [[s[0]] + rest[0]] + rest[1..];
      JoinSplit(s[1..]);
      JoinPrependFirst(s[0], rest, ". ");
      assert s == [s[0]] + s[1..];
    }
  }

  /** No piece of `split(". ")` contains ". ". */
  lemma {:induction false} SplitPiecesHaveNoBreak(s: string)
    ensures forall k :: 0 <= k < |Split(s)| ==> NoBreak(Split(s)[k])
  {
    if |s| < 2 {
    } else if s[0] == '.' && s[1] == ' ' {
      SplitPiecesHaveNoBreak(s[2..]);
    } else {
      SplitPiecesHaveNoBreak(s[1..]);
      var rest := Split(s[1..]);
      var first := [s[0]] + rest[0];
      forall i | 0 <= i < |first| - 1 ensures !BreakAt(first, i) {
        assert NoBreak(rest[0]);
        if i == 0 {
          FirstPieceStartsLikeString(s[1..]);
          assert first[1] == s[1];
        } else {
          assert !BreakAt(rest[0], i - 1);
          assert first[i] == rest[0][i - 1] && first[i + 1] == rest[0][i];
        }
      }
      assert Split(s) == [first] + rest[1..];
    }
  }

  /** A non-empty first piece starts with the string's first character. */
  lemma FirstPieceStartsLikeString(s: string)
    requires |Split(s)[0]| > 0
    ensures |s| > 0 && Split(s)[0][0] == s[0]
  {
  }

  /** A string without ". " splits into itself alone. */
  lemma {:induction false} SplitWithoutBreak(s: string)
    requires NoBreak(s)
    ensures Split(s) == [s]
  {
    if |s| >= 2 {
      assert !BreakAt(s, 0);
      forall i | 0 <= i < |s| - 2 ensures !BreakAt(s[1..], i) {
        assert !BreakAt(s, i + 1);
      }
      SplitWithoutBreak(s[1..]);
      assert [s[0]] + s[1..] == s;
    }
  }

  /** Joining pieces that hold no ". " with ".\n" creates no ". " either. */
  lemma {:induction false} JoinNewlineHasNoBreak(pieces: seq<string>)
    requires forall k :: 0 <= k < |pieces| ==> NoBreak(pieces[k])
    ensures NoBreak(Join(pieces, ".\n"))
  {
    if |pieces| > 1 {
      JoinNewlineHasNoBreak(pieces[1..]);
      var tail := Join(pieces[1..], ".\n");
      var p := pieces[0];
      assert NoBreak(p);
      var j := p + ".\n" + tail;
      forall i | 0 <= i < |j| - 1 ensures !BreakAt(j, i) {
        if 0 <= i < |p| - 1 {
          assert !BreakAt(p, i);
        } else if i >= |p| + 2 {
          assert !BreakAt(tail, i - |p| - 2);
        }
      }
    }
  }

  /** Appending a character that is not a space to a string without ". " keeps it so. */
  lemma AppendKeepsNoBreak(s: string, c: char)
    requires NoBreak(s) && c != ' '
    ensures NoBreak(s + [c])
  {
    forall i | 0 <= i < |s| ensures !BreakAt(s + [c], i) {
      if 0 <= i < |s| - 1 { assert !BreakAt(s, i); }
    }
  }

  /** Every ". " of `s` turned into ".\n": the text a newline-rejoined split reads as. */
  function Newlined(s: string): (r: string)
    ensures |r| == |s|
  {
    seq(|s|, i requires 0 <= i < |s| => if BreakAt(s, i - 1) then '\n' else s[i])
  }

  /** Rejoining the pieces of `split(". ")` with ".\n" replaces each ". " by ".\n" in place. */
  lemma {:induction false} JoinSplitNewline(s: string)
    ensures Join(Split(s), ".\n") == Newlined(s)
  {
    if |s| < 2 {
      assert !BreakAt(s, -1);
      assert |s| == 1 ==> !BreakAt(s, 0);
    } else if s[0] == '.' && s[1] == ' ' {
      JoinSplitNewline(s[2..]);
      JoinCons("", Split(s[2..]), ".\n");
      var n := Newlined(s);
      forall i | 2 <= i < |s| ensures n[i] == Newlined(s[2..])[i - 2] {
        assert BreakAt(s, i - 1) <==> BreakAt(s[2..], i - 3);
      }
      assert n == ".\n" + Newlined(s[2..]);
    } else {
      JoinSplitNewline(s[1..]);
      JoinPrependFirst(s[0], Split(s[1..]), ".\n");
      var n := Newlined(s);
      forall i | 1 <= i < |s| ensures n[i] == Newlined(s[1..])[i - 1] {
        assert BreakAt(s, i - 1) <==> BreakAt(s[1..], i - 2);
      }
      assert !BreakAt(s, -1);
      assert n == [s[0]] + Newlined(s[1..]);
    }
  }

  /**
   * The first `m` pieces of `split(". ")`, rejoined with ". ", are a proper prefix of `s`
   * when pieces were dropped: that prefix is followed by a ". " in `s`.
   */
  lemma {:induction false} JoinSplitPrefix(s: string, m: nat)
    requires 1 <= m < |Split(s)|
    ensures |Join(Split(s)[..m], ". ")| + 2 <= |s|
    ensures s[..|Join(Split(s)[..m], ". ")|] == Join(Split(s)[..m], ". ")
    ensures BreakAt(s, |Join(Split(s)[..m], ". ")|)
  {
    if |s| < 2 {
    } else if s[0] == '.' && s[1] == ' ' {
      var rest := Split(s[2..]);
      assert Split(s) == [""] + rest;
      if m == 1 {
        assert Split(s)[..1] == [""];
      } else {
        JoinSplitPrefix(s[2..], m - 1);
        assert Split(s)[..m] == [""] + rest[..m - 1];
        JoinCons("", rest[..m - 1], ". ");
      }
    } else {
      var rest := Split(s[1..]);
      JoinSplitPrefix(s[1..], m);
      assert Split(s)[..m] == [[s[0]] + rest[..m][0]] + rest[..m][1..];
      JoinPrependFirst(s[0], rest[..m], ". ");
    }
  }

  /** A piece without ". " followed by ". " splits off as exactly that piece. */
  lemma {:induction false} SplitAfterPiece(p: string, rest: string)
    requires NoBreak(p)
    ensures Split(p + ". " + rest) == [p] + Split(rest)
  {
    var s := p + ". " + rest;
    if p == [] {
      assert s[2..] == rest;
    } else {
      assert |p| >= 2 ==> !BreakAt(p, 0);
      assert !(s[0] == '.' && s[1] == ' ');
      forall i | 0 <= i < |p[1..]| - 1 ensures !BreakAt(p[1..], i) {
        assert !BreakAt(p, i + 1);
      }
      SplitAfterPiece(p[1..], rest);
      assert s[1..] == p[1..] + ". " + rest;
      assert [p[0]] + p[1..] == p;
    }
  }

  /** Splitting pieces that hold no ". " after joining them with ". " gives the pieces back. */
  lemma {:induction false} SplitJoin(pieces: seq<string>)
    requires |pieces| >= 1
    requires forall k :: 0 <= k < |pieces| ==> NoBreak(pieces[k])
    ensures Split(Join(pieces, ". ")) == pieces
  {
    if |pieces| == 1 {
      SplitWithoutBreak(pieces[0]);
    } else {
      SplitJoin(pieces[1..]);
      assert NoBreak(pieces[0]);
      SplitAfterPiece(pieces[0], Join(pieces[1..], ". "));
      assert [pieces[0]] + pieces[1..] == pieces;
    }
  }
}
