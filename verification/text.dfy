/**
 * The few `java.lang.String` / `java.lang.Integer` operations the listener and the
 * dependency-graph tool rely on, stated over `seq<char>`:
 *  - `toLowerCase()` (ASCII letters only),
 *  - `split(" ")`, which drops trailing empty pieces,
 *  - `indexOf`, `endsWith` and single-character `replace`,
 *  - `Integer.valueOf`, with `NumberFormatException` as `None`.
 */
module Text {
  import opened Optional

  // ---------------------------------------------------------------------------
  // Lower-casing
  // ---------------------------------------------------------------------------

  predicate IsUpper(c: char)
  {
    'A' <= c <= 'Z'
  }

  function LowerChar(c: char): char
  {
    if IsUpper(c) then (c as int + ('a' as int - 'A' as int)) as char else c
  }

  /** `String.toLowerCase()` restricted to ASCII letters. */
  function ToLower(s: string): (r: string)
    ensures |r| == |s|
  {
    seq(|s|, i requires 0 <= i < |s| => LowerChar(s[i]))
  }

  predicate NoUpper(s: string)
  {
    forall i :: 0 <= i < |s| ==> !IsUpper(s[i])
  }

  /** Lower-casing leaves no upper-case letter, changes nothing else, and is idempotent. */
  lemma ToLowerCanonical(s: string)
    ensures NoUpper(ToLower(s))
    ensures forall i :: 0 <= i < |s| && !IsUpper(s[i]) ==> ToLower(s)[i] == s[i]
    ensures ToLower(ToLower(s)) == ToLower(s)
    ensures NoUpper(s) ==> ToLower(s) == s
  {
    var t := ToLower(s);
    forall i | 0 <= i < |t|
      ensures !IsUpper(t[i])
    {
      assert t[i] == LowerChar(s[i]);
    }
    assert ToLower(t) == t;
  }

  // ---------------------------------------------------------------------------
  // split(" ")
  // ---------------------------------------------------------------------------

  predicate SpaceFree(w: string)
  {
    forall i :: 0 <= i < |w| ==> w[i] != ' '
  }

  predicate AllSpaces(s: string)
  {
    forall i :: 0 <= i < |s| ==> s[i] == ' '
  }

  /** Every piece between single spaces, including empty ones: the regex split before Java trims it. */
  function SplitOnSpace(s: string): (parts: seq<string>)
    ensures |parts| >= 1
    decreases |s|
  {
    if s == [] then [[]]
    else
      var rest := SplitOnSpace(s[1..]);
      if s[0] == ' ' then [[]] + rest
      else [[s[0]] + rest[0]] + rest[1..]
  }

  function JoinWithSpace(parts: seq<string>): string
    requires |parts| >= 1
    decreases |parts|
  {
    if |parts| == 1 then parts[0] else parts[0] + " " + JoinWithSpace(parts[1..])
  }

  /** Splitting on spaces is undone by joining with spaces, and yields space-free pieces. */
  lemma {:induction false} JoinSplit(s: string)
    ensures JoinWithSpace(SplitOnSpace(s)) == s
    ensures forall i :: 0 <= i < |SplitOnSpace(s)| ==> SpaceFree(SplitOnSpace(s)[i])
    decreases |s|
  {
    if s != [] {
      var rest := SplitOnSpace(s[1..]);
      JoinSplit(s[1..]);
      if s[0] == ' ' {
        assert SplitOnSpace(s) == [[]] + rest;
        assert s == [' '] + s[1..];
      } else {
        var parts := SplitOnSpace(s);
        assert parts == [[s[0]] + rest[0]] + rest[1..];
        if |rest| == 1 {
          assert s == [s[0]] + s[1..];
        } else {
          assert rest == [rest[0]] + rest[1..];
          assert JoinWithSpace(rest) == rest[0] + " " + JoinWithSpace(rest[1..]);
          assert parts[1..] == rest[1..];
          assert s == [s[0]] + s[1..];
        }
        forall i | 0 <= i < |parts|
          ensures SpaceFree(parts[i])
        {
          if i > 0 {
            assert parts[i] == rest[i];
          }
        }
      }
    }
  }

  lemma {:induction false} SplitAllEmpty(s: string)
    ensures (forall i :: 0 <= i < |SplitOnSpace(s)| ==> SplitOnSpace(s)[i] == []) <==> AllSpaces(s)
    decreases |s|
  {
    if s != [] {
      SplitAllEmpty(s[1..]);
      var rest := SplitOnSpace(s[1..]);
      var parts := SplitOnSpace(s);
      if s[0] == ' ' {
        assert parts == [[]] + rest;
        assert forall i :: 0 < i < |parts| ==> parts[i] == rest[i - 1];
        assert (forall i :: 0 <= i < |parts| ==> parts[i] == []) <==> (forall i :: 0 <= i < |rest| ==> rest[i] == []) by {
          if forall i :: 0 <= i < |rest| ==> rest[i] == [] {
            forall i | 0 <= i < |parts| ensures parts[i] == [] {
              if i > 0 { assert parts[i] == rest[i - 1]; }
            }
          }
          if forall i :: 0 <= i < |parts| ==> parts[i] == [] {
            forall i | 0 <= i < |rest| ensures rest[i] == [] {
              assert parts[i + 1] == rest[i];
            }
          }
        }
        assert AllSpaces(s) <==> AllSpaces(s[1..]) by {
          assert forall i :: 0 < i < |s| ==> s[i] == s[1..][i - 1];
        }
      } else {
        assert parts[0] == [s[0]] + rest[0];
        assert !AllSpaces(s) by { assert s[0] != ' '; }
      }
    }
  }

  /** Java's `split` removes every trailing empty piece. */
  function DropTrailingEmpty(parts: seq<string>): (r: seq<string>)
    ensures |r| <= |parts| && r == parts[..|r|]
    ensures |r| > 0 ==> r[|r| - 1] != []
    ensures forall i :: |r| <= i < |parts| ==> parts[i] == []
    decreases |parts|
  {
    if |parts| > 0 && parts[|parts| - 1] == [] then DropTrailingEmpty(parts[..|parts| - 1]) else parts
  }

  /** `s.split(" ")`: when nothing matches Java returns `{s}`, which only matters for the empty string. */
  function JavaSplitOnSpace(s: string): seq<string>
  {
    if s == [] then [s] else DropTrailingEmpty(SplitOnSpace(s))
  }

  /** `s.split(" ")[0]`; `None` where the array is empty and the index throws. */
  function FirstWord(s: string): Option<string>
  {
    var parts := JavaSplitOnSpace(s);
    if |parts| == 0 then None else Some(parts[0])
  }

  /**
   * The first word is missing exactly for a non-empty message made only of spaces;
   * otherwise it is the longest space-free prefix of the message.
   */
  lemma FirstWordShape(s: string)
    ensures FirstWord(s).None? <==> s != [] && AllSpaces(s)
    ensures FirstWord(s).Some? ==>
      var w := FirstWord(s).value;
      && SpaceFree(w) && |w| <= |s| && s[..|w|] == w
      && (|w| == |s| || s[|w|] == ' ')
  {
    if s != [] {
      var parts := SplitOnSpace(s);
      var kept := DropTrailingEmpty(parts);
      JoinSplit(s);
      SplitAllEmpty(s);
      FirstPieceIsPrefix(s);
      if |kept| == 0 {
        assert forall i :: 0 <= i < |parts| ==> parts[i] == [];
      } else {
        assert kept[0] == parts[0];
        assert parts[0] != [] ==> !AllSpaces(s) by {
          if parts[0] != [] {
            assert s[0] == parts[0][0];
          }
        }
        if parts[0] == [] {
          // an all-empty split would have left nothing
          assert kept[|kept| - 1] == parts[|kept| - 1];
          assert !AllSpaces(s);
        }
      }
    }
  }

  lemma {:induction false} FirstPieceIsPrefix(s: string)
    ensures var w := SplitOnSpace(s)[0];
      && SpaceFree(w) && |w| <= |s| && s[..|w|] == w
      && (|w| == |s| || s[|w|] == ' ')
    decreases |s|
  {
    if s != [] && s[0] != ' ' {
      FirstPieceIsPrefix(s[1..]);
      var r := SplitOnSpace(s[1..])[0];
      var w := [s[0]] + r;
      assert SplitOnSpace(s)[0] == w;
      assert SpaceFree(w) by {
        assert forall i :: 0 < i < |w| ==> w[i] == r[i - 1];
      }
      assert s[..|w|] == w by {
        assert s[..|w|] == [s[0]] + s[1..][..|r|];
      }
      assert |w| == |s| || s[|w|] == s[1..][|r|];
    }
  }

  /** A non-empty space-free word, alone or followed by a space and arguments, is its own first word. */
  lemma {:induction false} FirstWordOfWord(w: string, args: string)
    requires w != [] && SpaceFree(w)
    ensures FirstWord(w) == Some(w)
    ensures FirstWord(w + " " + args) == Some(w)
  {
    FirstWordIsPrefixWord(w, w);
    FirstWordIsPrefixWord(w, w + " " + args);
  }

  /** A non-empty space-free prefix that ends at a space or at the end of `s` is its first word. */
  lemma FirstWordIsPrefixWord(w: string, s: string)
    requires w != [] && SpaceFree(w) && |w| <= |s| && s[..|w|] == w
    requires |w| == |s| || s[|w|] == ' '
    ensures FirstWord(s) == Some(w)
  {
    FirstWordShape(s);
    assert !AllSpaces(s) by { assert s[0] == w[0]; }
    SpaceFreePrefixUnique(s, FirstWord(s).value, w);
  }

  /** Two space-free prefixes that both end at a space or at the end of `s` are the same word. */
  lemma SpaceFreePrefixUnique(s: string, v: string, w: string)
    requires SpaceFree(v) && |v| <= |s| && s[..|v|] == v && (|v| == |s| || s[|v|] == ' ')
    requires SpaceFree(w) && |w| <= |s| && s[..|w|] == w && (|w| == |s| || s[|w|] == ' ')
    ensures v == w
  {
  }

  // ---------------------------------------------------------------------------
  // indexOf, endsWith, replace
  // ---------------------------------------------------------------------------

  predicate OccursAt(s: string, pat: string, j: int)
  {
    0 <= j && j + |pat| <= |s| && s[j..j + |pat|] == pat
  }

  /** `s.indexOf(pat, from)`: the first occurrence at or after `from`, or -1. */
  function IndexOfFrom(s: string, pat: string, from: nat): (r: int)
    requires from <= |s|
    ensures r == -1 || (from <= r && OccursAt(s, pat, r))
    ensures r == -1 ==> forall j :: from <= j <= |s| ==> !OccursAt(s, pat, j)
    ensures r != -1 ==> forall j :: from <= j < r ==> !OccursAt(s, pat, j)
    decreases |s| - from
  {
    if from + |pat| > |s| then -1
    else if s[from..from + |pat|] == pat then from
    else if from == |s| then -1
    else IndexOfFrom(s, pat, from + 1)
  }

  function IndexOf(s: string, pat: string): (r: int)
    ensures r == -1 <==> forall j :: 0 <= j <= |s| ==> !OccursAt(s, pat, j)
    ensures r != -1 ==> OccursAt(s, pat, r) && forall j :: 0 <= j < r ==> !OccursAt(s, pat, j)
  {
    IndexOfFrom(s, pat, 0)
  }

  predicate EndsWith(s: string, suffix: string)
  {
    |suffix| <= |s| && s[|s| - |suffix|..] == suffix
  }

  /** `s.replace(a, b)` for one-character `a` and `b`. */
  function ReplaceChar(s: string, a: char, b: char): (r: string)
    ensures |r| == |s|
  {
    seq(|s|, i requires 0 <= i < |s| => if s[i] == a then b else s[i])
  }

  // ---------------------------------------------------------------------------
  // Integer.valueOf
  // ---------------------------------------------------------------------------

  const IntMin: int := -0x8000_0000
  const IntMax: int := 0x7fff_ffff

  predicate IsDigit(c: char)
  {
    '0' <= c <= '9'
  }

  predicate AllDigits(s: string)
  {
    forall i :: 0 <= i < |s| ==> IsDigit(s[i])
  }

  function DigitsValue(s: string): nat
    requires AllDigits(s)
    decreases |s|
  {
    if s == [] then 0 else DigitsValue(s[..|s| - 1]) * 10 + (s[|s| - 1] as int - '0' as int)
  }

  /**
   * `Integer.valueOf(s)`: an optional sign followed by at least one decimal digit, with
   * a value that fits in 32 bits; anything else is a `NumberFormatException` (`None`).
   */
  function ParseInt(s: string): (r: Option<int>)
    ensures r.Some? ==> IntMin <= r.value <= IntMax
    ensures s == [] ==> r.None?
    ensures |s| > 0 && !IsDigit(s[0]) && s[0] != '-' && s[0] != '+' ==> r.None?
  {
    if s == [] then None
    else
      var negative := s[0] == '-';
      var digits := if s[0] == '-' || s[0] == '+' then s[1..] else s;
      if digits == [] || !AllDigits(digits) then None
      else
        var d: int := DigitsValue(digits);
        var v := if negative then -d else d;
        if IntMin <= v <= IntMax then Some(v) else None
  }

  function DigitChar(d: nat): char
    requires d < 10
  {
    ('0' as int + d) as char
  }

  /** The decimal rendering of a natural number, without sign or leading zeros. */
  function ShowNat(n: nat): (r: string)
    ensures |r| >= 1 && AllDigits(r)
    ensures DigitsValue(r) == n
    decreases n
  {
    if n < 10 then [DigitChar(n)]
    else
      var r := ShowNat(n / 10) + [DigitChar(n % 10)];
      assert r[..|r| - 1] == ShowNat(n / 10);
      r
  }

  /** `Integer.valueOf` reads back every 32-bit value from its decimal rendering. */
  lemma ParseShow(n: int)
    requires IntMin <= n <= IntMax
    ensures n >= 0 ==> ParseInt(ShowNat(n)) == Some(n)
    ensures n < 0 ==> ParseInt("-" + ShowNat(-n)) == Some(n)
  {
    if n >= 0 {
      var s := ShowNat(n);
      assert IsDigit(s[0]);
    } else {
      var s := "-" + ShowNat(-n);
      assert s[1..] == ShowNat(-n);
    }
  }
}
