/**
 * The handful of Python `str` operations the two scripts rely on, written out over
 * `seq<char>`: `partition`, `replace`, `in`, `split`, `startswith`, `join`, `strip`,
 * `lower` and the line splitting of a file opened in text mode. `FindFirst` and
 * `IndexOfChar` are the search behind `in`, `split`, `partition` and `replace`.
 */
module Text {
  import opened Wrappers

  /** Python's `str.isspace()` for one character: the characters `str.strip()` removes. */
  predicate IsSpace(c: char)
  {
    || ('\t' <= c <= '\r')
    || ('\U{1C}' <= c <= '\U{1F}')
    || c == ' '
    || c == '\U{85}'
    || c == '\U{A0}'
    || c == '\U{1680}'
    || ('\U{2000}' <= c <= '\U{200A}')
    || c == '\U{2028}'
    || c == '\U{2029}'
    || c == '\U{202F}'
    || c == '\U{205F}'
    || c == '\U{3000}'
  }

  /** Python's `s.lstrip()`: the longest suffix of `s` that does not start with whitespace. */
  function StripLeading(s: string): (t: string)
    ensures |t| <= |s| && t == s[|s| - |t|..]
    ensures forall i :: 0 <= i < |s| - |t| ==> IsSpace(s[i])
    ensures t == [] || !IsSpace(t[0])
    decreases |s|
  {
    if |s| > 0 && IsSpace(s[0]) then StripLeading(s[1..]) else s
  }

  /** Python's `s.rstrip()`: the longest prefix of `s` that does not end with whitespace. */
  function StripTrailing(s: string): (t: string)
    ensures |t| <= |s| && t == s[..|t|]
    ensures forall i :: |t| <= i < |s| ==> IsSpace(s[i])
    ensures t == [] || !IsSpace(t[|t| - 1])
    decreases |s|
  {
    if |s| > 0 && IsSpace(s[|s| - 1]) then StripTrailing(s[..|s| - 1]) else s
  }

  /** Python's `s.strip()`. */
  function Strip(s: string): string
  {
    StripTrailing(StripLeading(s))
  }

  /** `strip()` yields the empty string exactly when every character is whitespace. */
  lemma StripBlank(s: string)
    ensures Strip(s) == [] <==> forall i :: 0 <= i < |s| ==> IsSpace(s[i])
  {
    var l := StripLeading(s);
    if Strip(s) == [] {
      forall i | 0 <= i < |s| ensures IsSpace(s[i]) {
        if i >= |s| - |l| {
          assert s[i] == l[i - (|s| - |l|)];
        }
      }
    } else {
      assert l != [] && !IsSpace(l[0]);
      assert !IsSpace(s[|s| - |l|]);
    }
  }

  /** A string without whitespace at either end is left alone by `strip()`. */
  lemma StripTrimmed(s: string)
    requires s == [] || (!IsSpace(s[0]) && !IsSpace(s[|s| - 1]))
    ensures Strip(s) == s
  {
  }

  /** ASCII `str.lower()` for one character. */
  function LowerChar(c: char): char
  {
    if 'A' <= c <= 'Z' then (c as int + 32) as char else c
  }

  /**
   * `str.lower()` restricted to ASCII letters. The modelled code only asks whether the
   * lowered text starts with an ASCII prefix made of `p y t h o n = >`; no other character
   * lowers to one of those, so the answer is the same as with full case mapping.
   */
  function Lower(s: string): string
  {
    seq(|s|, i requires 0 <= i < |s| => LowerChar(s[i]))
  }

  /** The first position holding `c`: where `partition` and `replace` cut (Python's `s.index(c)` when present). */
  function IndexOfChar(s: string, c: char): (r: Option<nat>)
    ensures r.None? <==> c !in s
    ensures r.Some? ==> r.value < |s| && s[r.value] == c && c !in s[..r.value]
    decreases |s|
  {
    if |s| == 0 then None
    else if s[0] == c then Some(0)
    else match IndexOfChar(s[1..], c)
      case None => None
      case Some(i) =>
        assert s[..i + 1] == [s[0]] + s[1..][..i];
        Some(i + 1)
  }

  /** The first `c` in `a + [c] + b` is the one after `a` when `a` has none. */
  lemma IndexOfCharAfter(a: string, c: char, b: string)
    requires c !in a
    ensures IndexOfChar(a + [c] + b, c) == Some(|a|)
  {
    var s := a + [c] + b;
    assert s[|a|] == c;
  }

  /** `sep` occurs in `s` starting at position `j`. */
  predicate OccursAt(s: string, sep: string, j: nat)
  {
    j + |sep| <= |s| && s[j..j + |sep|] == sep
  }

  /** The leftmost index where a non-empty `sep` occurs: the search behind `in` and `split`. */
  function FindFirst(s: string, sep: string): (r: Option<nat>)
    requires |sep| > 0
    ensures r.Some? ==> OccursAt(s, sep, r.value)
    ensures r.Some? ==> forall j: nat :: j < r.value ==> !OccursAt(s, sep, j)
    ensures r.None? ==> forall j: nat :: !OccursAt(s, sep, j)
    decreases |s|
  {
    if |s| < |sep| then None
    else if s[..|sep|] == sep then Some(0)
    else
      var rest := FindFirst(s[1..], sep);
      ShiftedWindows(s, sep);
      match rest
      case None => None
      case Some(i) => Some(i + 1)
  }

  /** The occurrences in `s[1..]` are those in `s` that start after position 0. */
  lemma ShiftedWindows(s: string, sep: string)
    requires 0 < |sep| <= |s|
    ensures OccursAt(s, sep, 0) <==> s[..|sep|] == sep
    ensures forall j: nat :: 1 <= j ==> (OccursAt(s, sep, j) <==> OccursAt(s[1..], sep, j - 1))
  {
    assert s[0..|sep|] == s[..|sep|];
    forall j: nat | 1 <= j
      ensures OccursAt(s, sep, j) <==> OccursAt(s[1..], sep, j - 1)
    {
      OccursShift(s, sep, 1, j - 1);
    }
  }

  /** The occurrences inside `s[a..]` are those in `s`, shifted by `a`. */
  lemma OccursShift(s: string, sep: string, a: nat, j: nat)
    requires a <= |s|
    ensures OccursAt(s[a..], sep, j) <==> OccursAt(s, sep, a + j)
  {
    if a + j + |sep| <= |s| {
      assert s[a..][j..j + |sep|] == s[a + j..a + j + |sep|];
    }
  }

  /** Python's `sep in s`. */
  predicate Contains(s: string, sep: string)
    requires |sep| > 0
  {
    FindFirst(s, sep).Some?
  }

  /** Python's `s.split(sep)`: the pieces between leftmost, non-overlapping occurrences. */
  function Split(s: string, sep: string): (pieces: seq<string>)
    requires |sep| > 0
    ensures |pieces| > 0
    decreases |s|
  {
    match FindFirst(s, sep)
    case None => [s]
    case Some(i) => [s[..i]] + Split(s[i + |sep|..], sep)
  }

  /** Python's `s.split(sep)[-1]`. */
  function LastPiece(s: string, sep: string): string
    requires |sep| > 0
  {
    var pieces := Split(s, sep);
    pieces[|pieces| - 1]
  }

  /** `s.split(sep)[-1]` is a suffix of `s` in which `sep` does not occur. */
  lemma {:induction false} LastPieceTail(s: string, sep: string)
    requires |sep| > 0
    ensures var p := LastPiece(s, sep);
            |p| <= |s| && p == s[|s| - |p|..] && FindFirst(p, sep).None?
    decreases |s|
  {
    match FindFirst(s, sep)
    case None =>
    case Some(i) =>
      LastPieceStep(s, sep, i);
      LastPieceTail(s[i + |sep|..], sep);
      SuffixOfSuffix(s, i + |sep|, |LastPiece(s, sep)|);
  }

  /** Whenever `sep` occurs in `s`, the last piece of `s.split(sep)` is preceded by `sep`. */
  lemma {:induction false} LastPieceAfterSep(s: string, sep: string)
    requires |sep| > 0
    ensures FindFirst(s, sep).Some? ==>
              var p := LastPiece(s, sep);
              |p| + |sep| <= |s| && OccursAt(s, sep, |s| - |p| - |sep|)
    decreases |s|
  {
    match FindFirst(s, sep)
    case None =>
    case Some(i) =>
      var t := s[i + |sep|..];
      LastPieceStep(s, sep, i);
      if FindFirst(t, sep).None? {
        SplitNone(t, sep);
      } else {
        LastPieceAfterSep(t, sep);
        LastSepShifted(s, sep, i + |sep|, LastPiece(t, sep));
      }
  }

  /** An occurrence of `sep` just before the tail `p` of `s[a..]` lies just before `p` in `s`. */
  lemma LastSepShifted(s: string, sep: string, a: nat, p: string)
    requires a <= |s|
    requires |p| + |sep| <= |s| - a && OccursAt(s[a..], sep, |s| - a - |p| - |sep|)
    ensures |p| + |sep| <= |s| && OccursAt(s, sep, |s| - |p| - |sep|)
  {
    OccursShift(s, sep, a, |s| - a - |p| - |sep|);
  }

  /** Splitting past the first separator leaves the last piece where it was. */
  lemma LastPieceStep(s: string, sep: string, i: nat)
    requires |sep| > 0
    requires FindFirst(s, sep) == Some(i)
    ensures LastPiece(s, sep) == LastPiece(s[i + |sep|..], sep)
  {
    var rest := Split(s[i + |sep|..], sep);
    var pieces := Split(s, sep);
    assert pieces == [s[..i]] + rest;
    assert pieces[|pieces| - 1] == rest[|rest| - 1];
  }

  /**
   * `s.split(sep)[-1]` is the text after the last occurrence of `sep`: a suffix of `s`
   * without `sep` in it, preceded by `sep` whenever `sep` occurs in `s` at all.
   */
  lemma LastPieceSuffix(s: string, sep: string)
    requires |sep| > 0
    ensures var p := LastPiece(s, sep);
            |p| <= |s| && p == s[|s| - |p|..] && FindFirst(p, sep).None?
    ensures FindFirst(s, sep).Some? ==>
              var p := LastPiece(s, sep);
              |p| + |sep| <= |s| && OccursAt(s, sep, |s| - |p| - |sep|)
  {
    LastPieceTail(s, sep);
    LastPieceAfterSep(s, sep);
  }

  /** A suffix of a suffix of `s` is a suffix of `s`. */
  lemma SuffixOfSuffix(s: string, a: nat, n: nat)
    requires a <= |s| && n <= |s| - a
    ensures s[a..][|s| - a - n..] == s[|s| - n..]
  {
  }

  /** Python's `sep.join(parts)`. */
  function Join(parts: seq<string>, sep: string): string
  {
    if |parts| == 0 then ""
    else if |parts| == 1 then parts[0]
    else parts[0] + sep + Join(parts[1..], sep)
  }

  /** A one-character separator is first found just after a prefix that lacks it. */
  lemma FindFirstChar(a: string, c: char, b: string)
    requires c !in a
    ensures FindFirst(a + [c] + b, [c]) == Some(|a|)
  {
    var s := a + [c] + b;
    assert s[|a|..|a| + 1] == [c];
    assert OccursAt(s, [c], |a|);
    forall j: nat | j < |a| ensures !OccursAt(s, [c], j) {
      assert s[j..j + 1] == [a[j]];
    }
  }

  /** For a one-character separator, the substring search stops at the first position holding that character. */
  lemma {:induction false} FindFirstCharIsIndex(s: string, c: char)
    ensures FindFirst(s, [c]) == IndexOfChar(s, c)
    decreases |s|
  {
    if |s| > 0 {
      assert s[..1] == [s[0]];
      if s[0] != c {
        FindFirstCharIsIndex(s[1..], c);
      }
    }
  }

  /** Where the first separator is known, `split` peels off the text before it. */
  lemma SplitAt(a: string, sep: string, b: string)
    requires |sep| > 0
    requires FindFirst(a + sep + b, sep) == Some(|a|)
    ensures Split(a + sep + b, sep) == [a] + Split(b, sep)
  {
    var s := a + sep + b;
    assert s[..|a|] == a;
    assert s[|a| + |sep|..] == b;
  }

  /** Text with no occurrence of the separator splits into itself alone. */
  lemma SplitNone(s: string, sep: string)
    requires |sep| > 0
    requires FindFirst(s, sep).None?
    ensures Split(s, sep) == [s]
  {
  }

  /**
   * Joining with a one-character separator, adding one more separator at the end and
   * splitting again gives back the parts followed by one empty piece, provided no part
   * contains the separator.
   */
  lemma {:induction false} SplitJoinTerminated(parts: seq<string>, c: char)
    requires |parts| > 0
    requires forall k :: 0 <= k < |parts| ==> c !in parts[k]
    ensures Split(Join(parts, [c]) + [c], [c]) == parts + [""]
    decreases |parts|
  {
    if |parts| == 1 {
      FindFirstChar(parts[0], c, "");
      SplitAt(parts[0], [c], "");
      assert parts[0] + [c] + "" == Join(parts, [c]) + [c];
      assert FindFirst("", [c]).None?;
    } else {
      var rest := Join(parts[1..], [c]) + [c];
      assert Join(parts, [c]) + [c] == parts[0] + [c] + rest;
      FindFirstChar(parts[0], c, rest);
      SplitAt(parts[0], [c], rest);
      SplitJoinTerminated(parts[1..], c);
      assert parts == [parts[0]] + parts[1..];
    }
  }

  /**
   * What a file opened in text mode delivers: `\r\n` and a lone `\r` both read as `\n`
   * (Python's universal newlines).
   */
  function UniversalNewlines(s: string): string
    decreases |s|
  {
    if |s| == 0 then s
    else if s[0] == '\r' then "\n" + UniversalNewlines(if |s| > 1 && s[1] == '\n' then s[2..] else s[1..])
    else [s[0]] + UniversalNewlines(s[1..])
  }

  /** Text without carriage returns reads back unchanged. */
  lemma {:induction false} UniversalNewlinesPlain(s: string)
    requires '\r' !in s
    ensures UniversalNewlines(s) == s
    decreases |s|
  {
    if |s| > 0 {
      assert '\r' !in s[1..] by {
        assert forall k :: 0 <= k < |s| - 1 ==> s[1..][k] == s[k + 1];
      }
      UniversalNewlinesPlain(s[1..]);
      assert s == [s[0]] + s[1..];
    }
  }

  /**
   * The lines `for line in f` visits, without their terminators; a text ending in a
   * newline gives one extra empty piece, which every caller strips to `""`.
   */
  function Lines(text: string): seq<string>
  {
    Split(UniversalNewlines(text), "\n")
  }
}
