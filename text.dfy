/**
 * The Python `str` operations the dashboard pages call: `split` on a
 * one-character separator, `join`, `strip`, `capitalize`, and the
 * substring test that `Series.str.contains` performs. `lower` and the
 * one-character `replace` are not called by the pages; they serve only to
 * state that a label can be turned back into its metric.
 *
 * Case mapping is ASCII only: letters outside 'a'..'z' and 'A'..'Z' are
 * left as they are.
 */
module Text {

  datatype Option<T> = None | Some(value: T)

  function ToUpper(c: char): (u: char)
    ensures 'a' <= c <= 'z' ==> 'A' <= u <= 'Z'
    ensures !('a' <= c <= 'z') ==> u == c
  {
    if 'a' <= c <= 'z' then (c as int - 32) as char else c
  }

  function ToLower(c: char): (l: char)
    ensures 'A' <= c <= 'Z' ==> 'a' <= l <= 'z'
    ensures !('A' <= c <= 'Z') ==> l == c
  {
    if 'A' <= c <= 'Z' then (c as int + 32) as char else c
  }

  /** `s.lower()`. */
  function LowerAll(s: string): (r: string)
    ensures |r| == |s|
    ensures forall i :: 0 <= i < |s| ==> r[i] == ToLower(s[i])
  {
    if s == [] then [] else [ToLower(s[0])] + LowerAll(s[1..])
  }

  /** `w.capitalize()`: the first character upper-cased, every other one lower-cased. */
  function Capitalize(w: string): (r: string)
    ensures |r| == |w|
    ensures |w| > 0 ==> r[0] == ToUpper(w[0])
    ensures forall i :: 0 < i < |w| ==> r[i] == ToLower(w[i])
  {
    if w == [] then [] else [ToUpper(w[0])] + LowerAll(w[1..])
  }

  /** `s.replace(a, b)` for single characters `a` and `b`. */
  function ReplaceChar(s: string, a: char, b: char): (r: string)
    ensures |r| == |s|
    ensures forall i :: 0 <= i < |s| ==> r[i] == if s[i] == a then b else s[i]
  {
    if s == [] then [] else [if s[0] == a then b else s[0]] + ReplaceChar(s[1..], a, b)
  }

  /** Number of occurrences of `c` in `s`. */
  function Count(s: string, c: char): nat
  {
    if s == [] then 0 else (if s[0] == c then 1 else 0) + Count(s[1..], c)
  }

  lemma {:induction false} CountAbsent(s: string, c: char)
    ensures c !in s <==> Count(s, c) == 0
  {
    if s != [] {
      CountAbsent(s[1..], c);
      assert s == [s[0]] + s[1..];
    }
  }

  /**
   * `s.split(sep)`: the pieces between separators, in order. There is always
   * at least one piece, and a leading, trailing or doubled separator yields an
   * empty piece.
   */
  function Split(s: string, sep: char): (pieces: seq<string>)
    ensures |pieces| == Count(s, sep) + 1
    ensures forall i :: 0 <= i < |pieces| ==> sep !in pieces[i]
  {
    if s == [] then [""]
    else
      var rest := Split(s[1..], sep);
      if s[0] == sep then [""] + rest
      else [[s[0]] + rest[0]] + rest[1..]
  }

  /** `sep.join(words)`. */
  function Join(sep: string, words: seq<string>): string
  {
    if |words| == 0 then ""
    else if |words| == 1 then words[0]
    else words[0] + sep + Join(sep, words[1..])
  }

  /** Putting a character in front of the first word puts it in front of the joined text. */
  lemma JoinConsChar(sep: string, c: char, w: string, ws: seq<string>)
    ensures Join(sep, [[c] + w] + ws) == [c] + Join(sep, [w] + ws)
  {
    if |ws| > 0 {
      assert ([[c] + w] + ws)[1..] == ws == ([w] + ws)[1..];
    }
  }

  /** A text without the separator splits into itself alone. */
  lemma {:induction false} SplitWithoutSeparator(s: string, sep: char)
    requires sep !in s
    ensures Split(s, sep) == [s]
  {
    if s != [] {
      SplitWithoutSeparator(s[1..], sep);
      assert s == [s[0]] + s[1..];
    }
  }

  /** Joining the pieces of a split with the separator gives back the text. */
  lemma {:induction false} JoinSplit(s: string, sep: char)
    ensures Join([sep], Split(s, sep)) == s
  {
    if s != [] {
      var rest := Split(s[1..], sep);
      JoinSplit(s[1..], sep);
      if s[0] == sep {
        assert ([""] + rest)[1..] == rest;
      } else {
        assert rest == [rest[0]] + rest[1..];
        JoinConsChar([sep], s[0], rest[0], rest[1..]);
      }
      assert s == [s[0]] + s[1..];
    }
  }

  /** Splitting `w + sep + t`, where `w` has no separator, gives `w` followed by the pieces of `t`. */
  lemma {:induction false} SplitAfterWord(w: string, sep: char, t: string)
    requires sep !in w
    ensures Split(w + [sep] + t, sep) == [w] + Split(t, sep)
  {
    var s := w + [sep] + t;
    if w == [] {
      assert s[1..] == t;
    } else {
      assert s[1..] == w[1..] + [sep] + t;
      SplitAfterWord(w[1..], sep, t);
      assert [w[0]] + w[1..] == w;
    }
  }

  /** Splitting a join of separator-free words gives back the words. */
  lemma {:induction false} SplitJoin(ws: seq<string>, sep: char)
    requires |ws| >= 1
    requires forall i :: 0 <= i < |ws| ==> sep !in ws[i]
    ensures Split(Join([sep], ws), sep) == ws
  {
    if |ws| == 1 {
      SplitWithoutSeparator(ws[0], sep);
    } else {
      SplitJoin(ws[1..], sep);
      SplitAfterWord(ws[0], sep, Join([sep], ws[1..]));
      assert [ws[0]] + ws[1..] == ws;
    }
  }

  /** The last piece of `s.split(sep)`, i.e. `s.split(sep)[-1]`; it never fails. */
  function LastPiece(s: string, sep: char): string
  {
    var pieces := Split(s, sep);
    pieces[|pieces| - 1]
  }

  /**
   * `c` is the part of `s` after its last `sep`: it has no separator, it ends
   * the text, it is the whole text when there is no separator, and otherwise
   * the character just before it is a separator.
   */
  ghost predicate IsPartAfterLast(s: string, sep: char, c: string)
  {
    sep !in c
    && |c| <= |s| && c == s[|s| - |c|..]
    && (sep !in s ==> c == s)
    && (sep in s ==> |c| < |s| && s[|s| - |c| - 1] == sep)
  }

  /** How the last piece of a non-empty text relates to the last piece of its tail. */
  lemma LastPieceStep(s: string, sep: char)
    requires s != []
    ensures s[0] == sep || sep in s[1..] ==> LastPiece(s, sep) == LastPiece(s[1..], sep)
    ensures s[0] != sep && sep !in s[1..] ==> LastPiece(s, sep) == s
  {
    var t := s[1..];
    var rest := Split(t, sep);
    if s[0] == sep {
      assert Split(s, sep) == [""] + rest;
    } else if sep in t {
      CountAbsent(t, sep);
      assert Split(s, sep) == [[s[0]] + rest[0]] + rest[1..];
    } else {
      assert s == [s[0]] + t;
      SplitWithoutSeparator(s, sep);
    }
  }

  /** The last piece is the longest separator-free suffix. */
  lemma {:induction false} LastPieceIsSuffix(s: string, sep: char)
    ensures IsPartAfterLast(s, sep, LastPiece(s, sep))
  {
    if sep !in s {
      SplitWithoutSeparator(s, sep);
    } else if sep !in s[1..] {
      LastPieceAfterOnlySeparator(s, sep);
    } else {
      LastPieceIsSuffix(s[1..], sep);
      LastPieceFromTail(s, sep);
    }
  }

  /** When the first character is the only separator, the last piece is the rest of the text. */
  lemma LastPieceAfterOnlySeparator(s: string, sep: char)
    requires sep in s && sep !in s[1..]
    ensures IsPartAfterLast(s, sep, LastPiece(s, sep))
  {
    var t := s[1..];
    assert s == [s[0]] + t;
    LastPieceStep(s, sep);
    SplitWithoutSeparator(t, sep);
  }

  /** When the tail holds a separator, the tail's last piece is the text's. */
  lemma LastPieceFromTail(s: string, sep: char)
    requires s != [] && sep in s[1..]
    requires IsPartAfterLast(s[1..], sep, LastPiece(s[1..], sep))
    ensures IsPartAfterLast(s, sep, LastPiece(s, sep))
  {
    var t := s[1..];
    var c := LastPiece(t, sep);
    LastPieceStep(s, sep);
    assert t[|t| - |c|..] == s[|s| - |c|..];
    assert t[|t| - |c| - 1] == s[|s| - |c| - 1];
  }

  /**
   * Python's `str.isspace`: the ASCII whitespace and separator controls, the
   * next-line and no-break spaces, and Unicode's space separators and line
   * and paragraph separators.
   */
  predicate IsSpace(c: char)
  {
    c in Whitespace
  }

  const Whitespace: set<char> := {
    '\t', '\n', '\U{B}', '\U{C}', '\r', '\U{1C}', '\U{1D}', '\U{1E}', '\U{1F}', ' ',
    '\U{85}', '\U{A0}', '\U{1680}',
    '\U{2000}', '\U{2001}', '\U{2002}', '\U{2003}', '\U{2004}', '\U{2005}',
    '\U{2006}', '\U{2007}', '\U{2008}', '\U{2009}', '\U{200A}',
    '\U{2028}', '\U{2029}', '\U{202F}', '\U{205F}', '\U{3000}'
  }

  /** `s.lstrip()`: a suffix of the text that does not start with whitespace. */
  function StripStart(s: string): (r: string)
    ensures |r| <= |s| && r == s[|s| - |r|..]
    ensures r == [] || !IsSpace(r[0])
  {
    if s != [] && IsSpace(s[0]) then StripStart(s[1..]) else s
  }

  /** What `lstrip` removes is whitespace. */
  lemma {:induction false} StripStartRemovesSpace(s: string)
    ensures forall k :: 0 <= k < |s| - |StripStart(s)| ==> IsSpace(s[k])
  {
    if s != [] && IsSpace(s[0]) {
      StripStartRemovesSpace(s[1..]);
      assert forall k :: 0 < k < |s| ==> s[k] == s[1..][k - 1];
    }
  }

  /** `s.rstrip()`: a prefix of the text that does not end with whitespace. */
  function StripEnd(s: string): (r: string)
    ensures |r| <= |s| && r == s[..|r|]
    ensures r == [] || !IsSpace(r[|r| - 1])
  {
    if s != [] && IsSpace(s[|s| - 1]) then StripEnd(s[..|s| - 1]) else s
  }

  /** What `rstrip` removes is whitespace. */
  lemma {:induction false} StripEndRemovesSpace(s: string)
    ensures forall k :: |StripEnd(s)| <= k < |s| ==> IsSpace(s[k])
  {
    if s != [] && IsSpace(s[|s| - 1]) {
      StripEndRemovesSpace(s[..|s| - 1]);
    }
  }

  /** `s.strip()`: neither starts nor ends with whitespace. */
  function Strip(s: string): (r: string)
    ensures r == [] || (!IsSpace(r[0]) && !IsSpace(r[|r| - 1]))
  {
    var t := StripStart(s);
    var r := StripEnd(t);
    assert r != [] ==> r[0] == t[0];
    r
  }

  /** `r` is the factor `s[i..i + |r|]` of `s`, with only whitespace before and after it. */
  ghost predicate IsFactorAmidSpace(s: string, i: nat, r: string)
  {
    i + |r| <= |s| && r == s[i..i + |r|]
    && (forall k :: 0 <= k < i ==> IsSpace(s[k]))
    && (forall k :: i + |r| <= k < |s| ==> IsSpace(s[k]))
  }

  /**
   * What `strip` removes: the result is a factor `s[i..i + |r|]` of the text
   * with only whitespace before and after it.
   */
  lemma StripFactor(s: string)
    ensures IsFactorAmidSpace(s, |s| - |StripStart(s)|, Strip(s))
  {
    var t := StripStart(s);
    StripStartRemovesSpace(s);
    StripEndOfSuffix(s, |s| - |t|);
  }

  /** `rstrip` of a suffix `s[i..]` is a factor of `s` followed by whitespace only. */
  lemma StripEndOfSuffix(s: string, i: nat)
    requires i <= |s|
    ensures var r := StripEnd(s[i..]);
      i + |r| <= |s| && r == s[i..i + |r|]
      && forall k :: i + |r| <= k < |s| ==> IsSpace(s[k])
  {
    var t := s[i..];
    StripEndRemovesSpace(t);
    assert forall k :: i <= k < |s| ==> s[k] == t[k - i];
  }

  /** Stripping twice is stripping once. */
  lemma StripIdempotent(s: string)
    ensures Strip(Strip(s)) == Strip(s)
  {
  }

  /**
   * `pat in s`, the test `Series.str.contains(pat)` performs when `pat` holds
   * no regular-expression metacharacters: `pat` is a prefix of some suffix
   * of `s`.
   */
  predicate Contains(s: string, pat: string)
  {
    pat <= s || (s != [] && Contains(s[1..], pat))
  }

  /** `pat` occurs in `s` starting at index `i`. */
  predicate OccursAt(s: string, pat: string, i: int)
  {
    0 <= i && i + |pat| <= |s| && s[i..i + |pat|] == pat
  }

  /** The substring test holds exactly when the pattern occurs at some index. */
  lemma ContainsOccurs(s: string, pat: string)
    ensures Contains(s, pat) <==> exists i :: OccursAt(s, pat, i)
  {
    if Contains(s, pat) {
      var i := ContainsWitness(s, pat);
    }
    if exists i :: OccursAt(s, pat, i) {
      var i :| OccursAt(s, pat, i);
      OccursContains(s, pat, i);
    }
  }

  /** An index where the pattern occurs, when the substring test holds. */
  lemma {:induction false} ContainsWitness(s: string, pat: string) returns (i: nat)
    requires Contains(s, pat)
    ensures OccursAt(s, pat, i)
  {
    if pat <= s {
      assert s[..|pat|] == pat;
      i := 0;
    } else {
      var j := ContainsWitness(s[1..], pat);
      assert s[1..][j..j + |pat|] == s[j + 1..j + 1 + |pat|];
      i := j + 1;
    }
  }

  /** A pattern occurring at index `i` passes the substring test. */
  lemma {:induction false} OccursContains(s: string, pat: string, i: nat)
    requires OccursAt(s, pat, i)
    ensures Contains(s, pat)
    decreases i
  {
    if i == 0 {
      assert s[..|pat|] == pat;
    } else {
      assert s[1..][i - 1..i - 1 + |pat|] == s[i..i + |pat|];
      OccursContains(s[1..], pat, i - 1);
    }
  }
}
