/** The JavaScript string and array operations the application relies on
    (`includes`, `indexOf`, `startsWith`, `split`, `join`, `trim`,
    `toLowerCase`, `slice(0, k)`), over strings as sequences of characters.
    Every character the application compares (Hangul syllables, ASCII,
    backquotes) is a single UTF-16 code unit, so a `char` stands for one. */
module Text {

  /** `needle` occurs in `hay` starting at position `k`. */
  predicate MatchesAt(hay: string, needle: string, k: int)
  {
    0 <= k && k + |needle| <= |hay| && hay[k..k + |needle|] == needle
  }

  /** `hay.indexOf(needle, from)`: the first position at or after `from`
      where `needle` occurs, or -1. */
  function IndexOfFrom(hay: string, needle: string, from: nat): (r: int)
    decreases |hay| - from
    ensures r == -1 || (from <= r && MatchesAt(hay, needle, r))
    ensures forall k :: from <= k && (r == -1 || k < r) ==> !MatchesAt(hay, needle, k)
  {
    if from + |needle| > |hay| then -1
    else if hay[from..from + |needle|] == needle then from
    else IndexOfFrom(hay, needle, from + 1)
  }

  /** `hay.indexOf(needle)`. */
  function IndexOf(hay: string, needle: string): (r: int)
    ensures r == -1 || MatchesAt(hay, needle, r)
    ensures forall k :: 0 <= k && (r == -1 || k < r) ==> !MatchesAt(hay, needle, k)
  {
    IndexOfFrom(hay, needle, 0)
  }

  /** `hay.includes(needle)`: true exactly when `needle` occurs somewhere in `hay`. */
  predicate Contains(hay: string, needle: string)
  {
    IndexOf(hay, needle) >= 0
  }

  /** Where the first `sep` in `s` begins, or the end of `s` when there is none. */
  function EndOf(s: string, sep: string): (r: nat)
    ensures r <= |s|
    ensures Contains(s, sep) ==> MatchesAt(s, sep, r)
    ensures !Contains(s, sep) ==> r == |s|
    ensures forall k :: 0 <= k < r ==> !MatchesAt(s, sep, k)
  {
    var i := IndexOf(s, sep);
    if i < 0 then |s| else i
  }

  lemma ContainsIff(hay: string, needle: string)
    ensures Contains(hay, needle) <==> exists k :: MatchesAt(hay, needle, k)
  {
  }

  /** A match that lies inside the prefix `s[..m]` is a match in `s`, and conversely. */
  lemma MatchesInPrefix(s: string, sep: string, m: nat, k: int)
    requires m <= |s|
    ensures MatchesAt(s[..m], sep, k) <==> MatchesAt(s, sep, k) && k + |sep| <= m
  {
    if 0 <= k && k + |sep| <= m {
      assert s[..m][k..k + |sep|] == s[k..k + |sep|];
    }
  }

  /** A match with no match before it is where `sep` first occurs. */
  lemma FirstMatchAt(s: string, sep: string, p: nat)
    requires MatchesAt(s, sep, p)
    requires forall k :: 0 <= k < p ==> !MatchesAt(s, sep, k)
    ensures Contains(s, sep) && IndexOf(s, sep) == p && EndOf(s, sep) == p
  {
  }

  /** Cutting `s` at `m` keeps the first `sep` when the cut falls exactly at
      it or after its end. */
  lemma EndOfInPrefix(s: string, sep: string, m: nat)
    requires |sep| > 0 && m <= |s|
    requires EndOf(s, sep) == m || EndOf(s, sep) + |sep| <= m
    ensures EndOf(s[..m], sep) == EndOf(s, sep)
  {
    var p := EndOf(s, sep);
    forall k | 0 <= k < p ensures !MatchesAt(s[..m], sep, k) {
      MatchesInPrefix(s, sep, m, k);
    }
    if p + |sep| <= m {
      MatchesInPrefix(s, sep, m, p);
      FirstMatchAt(s[..m], sep, p);
    } else {
      forall k | MatchesAt(s[..m], sep, k) ensures false {
        MatchesInPrefix(s, sep, m, k);
      }
      ContainsIff(s[..m], sep);
    }
  }

  /** `s.startsWith(prefix)`. */
  predicate StartsWith(s: string, prefix: string)
  {
    |prefix| <= |s| && s[..|prefix|] == prefix
  }

  /** A string's `length` in JavaScript: the number of UTF-16 code units,
      two for a character outside the Basic Multilingual Plane. */
  function Utf16Length(s: string): (n: nat)
    ensures |s| <= n <= 2 * |s|
    ensures |s| == 1 ==> n == if s[0] as int < 0x1_0000 then 1 else 2
  {
    if s == [] then 0
    else Utf16Length(s[..|s| - 1]) + (if s[|s| - 1] as int < 0x1_0000 then 1 else 2)
  }

  /** Text in the Basic Multilingual Plane, Hangul included, has one code
      unit per character. */
  lemma {:induction false} Utf16LengthBmp(s: string)
    requires forall i :: 0 <= i < |s| ==> s[i] as int < 0x1_0000
    ensures Utf16Length(s) == |s|
  {
    if s != [] {
      Utf16LengthBmp(s[..|s| - 1]);
    }
  }

  /** The code units of a concatenation are those of its parts. */
  lemma {:induction false} Utf16LengthAppend(a: string, b: string)
    ensures Utf16Length(a + b) == Utf16Length(a) + Utf16Length(b)
    decreases |b|
  {
    if b == [] {
      assert a + b == a;
    } else {
      assert (a + b)[..|a + b| - 1] == a + b[..|b| - 1];
      Utf16LengthAppend(a, b[..|b| - 1]);
    }
  }

  /** Text made only of characters outside the Basic Multilingual Plane,
      such as emoji, has two code units per character. */
  lemma {:induction false} Utf16LengthAstral(s: string)
    requires forall i :: 0 <= i < |s| ==> s[i] as int >= 0x1_0000
    ensures Utf16Length(s) == 2 * |s|
  {
    if s != [] {
      Utf16LengthAstral(s[..|s| - 1]);
    }
  }

  /** A slice of a text without `sep` has no `sep` either. */
  lemma NoMatchInSlice(s: string, sep: string, i: nat, j: nat)
    requires i <= j <= |s| && !Contains(s, sep)
    ensures !Contains(s[i..j], sep)
  {
    if Contains(s[i..j], sep) {
      var k := IndexOf(s[i..j], sep);
      assert s[i + k..i + k + |sep|] == s[i..j][k..k + |sep|];
      assert MatchesAt(s, sep, i + k);
      ContainsIff(s, sep);
    }
  }

  /** The JavaScript `Array.prototype.slice(0, k)`: a negative `k` counts from the end. */
  function SliceTo<T>(s: seq<T>, k: int): (r: seq<T>)
    ensures |r| <= |s| && r == s[..|r|]
    ensures k >= 0 ==> |r| == if k < |s| then k else |s|
    ensures k < 0 ==> |r| == if |s| + k < 0 then 0 else |s| + k
  {
    var end := if k < 0 then (if |s| + k < 0 then 0 else |s| + k) else (if k < |s| then k else |s|);
    s[..end]
  }

  /** `toLowerCase` on one character: ASCII capitals become small letters;
      Hangul and other characters the application compares have no case. */
  function LowerChar(c: char): char
  {
    if 'A' <= c <= 'Z' then (c as int + 32) as char else c
  }

  /** `s.toLowerCase()`: same length, no capital letter left, every capital
      replaced by its small letter and every other character kept. */
  function Lower(s: string): (r: string)
    ensures |r| == |s|
    ensures forall i :: 0 <= i < |r| ==> !('A' <= r[i] <= 'Z')
    ensures forall i :: 0 <= i < |s| && !('A' <= s[i] <= 'Z') ==> r[i] == s[i]
    ensures forall i :: 0 <= i < |s| && 'A' <= s[i] <= 'Z' ==> 'a' <= r[i] <= 'z' && r[i] as int - s[i] as int == 32
  {
    seq(|s|, i requires 0 <= i < |s| => LowerChar(s[i]))
  }

  /** A string with no ASCII capital letter is its own lower-case form. */
  lemma LowerIdentity(s: string)
    requires forall i :: 0 <= i < |s| ==> !('A' <= s[i] <= 'Z')
    ensures Lower(s) == s
  {
  }

  lemma LowerIdempotent(s: string)
    ensures Lower(Lower(s)) == Lower(s)
  {
  }

  /** The white-space and line-terminator characters `trim` removes. */
  predicate IsSpace(c: char)
  {
    c == ' ' || c == '\t' || c == '\n' || c == '\r' || c == '\U{B}' || c == '\U{C}'
    || c == '\U{A0}' || c == '\U{1680}' || ('\U{2000}' <= c <= '\U{200A}')
    || c == '\U{2028}' || c == '\U{2029}' || c == '\U{202F}' || c == '\U{205F}'
    || c == '\U{3000}' || c == '\U{FEFF}'
  }

  /** `s.trimStart()`: the suffix of `s` left after its leading white space. */
  function TrimStart(s: string): (r: string)
    ensures |r| <= |s| && r == s[|s| - |r|..]
    ensures forall k :: 0 <= k < |s| - |r| ==> IsSpace(s[k])
    ensures r == [] || !IsSpace(r[0])
  {
    if s != [] && IsSpace(s[0]) then TrimStart(s[1..]) else s
  }

  /** `s.trimEnd()`: the prefix of `s` left before its trailing white space. */
  function TrimEnd(s: string): (r: string)
    ensures |r| <= |s| && r == s[..|r|]
    ensures forall k :: |r| <= k < |s| ==> IsSpace(s[k])
    ensures r == [] || !IsSpace(r[|r| - 1])
  {
    if s != [] && IsSpace(s[|s| - 1]) then TrimEnd(s[..|s| - 1]) else s
  }

  /** How much leading white space `trim` removes from `s`. */
  function TrimOffset(s: string): (n: nat)
    ensures n <= |s|
  {
    |s| - |TrimStart(s)|
  }

  /** `s.trim()`: the contiguous part of `s` at `TrimOffset(s)` that neither
      starts nor ends with white space, everything around it being white space. */
  function Trim(s: string): (r: string)
    ensures TrimOffset(s) + |r| <= |s| && r == s[TrimOffset(s)..TrimOffset(s) + |r|]
    ensures forall k :: 0 <= k < TrimOffset(s) ==> IsSpace(s[k])
    ensures forall k :: TrimOffset(s) + |r| <= k < |s| ==> IsSpace(s[k])
    ensures r == [] || (!IsSpace(r[0]) && !IsSpace(r[|r| - 1]))
  {
    var t := TrimStart(s);
    var r := TrimEnd(t);
    var i := |s| - |t|;
    assert r == s[i..i + |r|];
    r
  }

  lemma {:induction false} TrimStartOfTrimmed(s: string)
    requires s == [] || !IsSpace(s[0])
    ensures TrimStart(s) == s
  {
  }

  lemma {:induction false} TrimEndOfTrimmed(s: string)
    requires s == [] || !IsSpace(s[|s| - 1])
    ensures TrimEnd(s) == s
  {
  }

  /** Trimming twice is trimming once. */
  lemma TrimIdempotent(s: string)
    ensures Trim(Trim(s)) == Trim(s)
  {
    var r := Trim(s);
    TrimStartOfTrimmed(r);
    TrimEndOfTrimmed(r);
  }

  /** `s.split(sep)` for a non-empty separator: the pieces between the
      occurrences of `sep`, scanning from the left. */
  function SplitOn(s: string, sep: string): (parts: seq<string>)
    requires |sep| > 0
    decreases |s|
    ensures |parts| >= 1
    ensures Contains(s, sep) <==> |parts| >= 2
  {
    var i := IndexOf(s, sep);
    if i < 0 then [s] else [s[..i]] + SplitOn(s[i + |sep|..], sep)
  }

  /** The first piece of a split is everything before the first separator. */
  lemma SplitFirst(s: string, sep: string)
    requires |sep| > 0
    ensures SplitOn(s, sep)[0] == s[..EndOf(s, sep)]
    ensures !Contains(SplitOn(s, sep)[0], sep)
  {
    var e := EndOf(s, sep);
    if Contains(s[..e], sep) {
      var k := IndexOf(s[..e], sep);
      MatchesInPrefix(s, sep, e, k);
    }
  }

  /** The second piece of a split runs from the end of the first separator to the next one. */
  lemma SplitSecond(s: string, sep: string)
    requires |sep| > 0 && Contains(s, sep)
    ensures var rest := s[IndexOf(s, sep) + |sep|..];
            SplitOn(s, sep)[1] == rest[..EndOf(rest, sep)]
  {
    var rest := s[IndexOf(s, sep) + |sep|..];
    SplitFirst(rest, sep);
  }

  /** `parts.join(sep)`. */
  function Join(parts: seq<string>, sep: string): (r: string)
  {
    if |parts| == 0 then ""
    else if |parts| == 1 then parts[0]
    else parts[0] + sep + Join(parts[1..], sep)
  }

  /** Joining the pieces of a split with the same separator gives the string back. */
  lemma {:induction false} JoinSplit(s: string, sep: string)
    requires |sep| > 0
    ensures Join(SplitOn(s, sep), sep) == s
    decreases |s|
  {
    var i := IndexOf(s, sep);
    if i >= 0 {
      var rest := s[i + |sep|..];
      var parts := SplitOn(rest, sep);
      JoinSplit(rest, sep);
      assert SplitOn(s, sep) == [s[..i]] + parts;
      assert ([s[..i]] + parts)[1..] == parts;
      assert Join([s[..i]] + parts, sep) == s[..i] + sep + Join(parts, sep);
      assert s[i..i + |sep|] == sep;
      assert s == s[..i] + s[i..i + |sep|] + rest;
    }
  }

  /** Splitting a join on a one-character separator that no piece contains
      gives the pieces back. */
  lemma {:induction false} SplitJoin(parts: seq<string>, sep: string)
    requires |sep| == 1 && |parts| >= 1
    requires forall k :: 0 <= k < |parts| ==> sep[0] !in parts[k]
    ensures SplitOn(Join(parts, sep), sep) == parts
  {
    var p := parts[0];
    if |parts| == 1 {
      NoMatchWithout(p, sep);
    } else {
      var rest := Join(parts[1..], sep);
      var s := p + sep + rest;
      assert MatchesAt(s, sep, |p|) by { assert s[|p|..|p| + 1] == sep; }
      forall k | 0 <= k < |p| ensures !MatchesAt(s, sep, k) {
        assert s[k] == p[k];
      }
      assert IndexOf(s, sep) == |p|;
      assert s[|p| + 1..] == rest;
      assert s[..|p|] == p;
      SplitJoin(parts[1..], sep);
    }
  }

  /** A one-character separator that does not occur as a character does not occur. */
  lemma NoMatchWithout(s: string, sep: string)
    requires |sep| == 1 && sep[0] !in s
    ensures !Contains(s, sep)
  {
    forall k | 0 <= k && k + 1 <= |s| ensures !MatchesAt(s, sep, k) {
      assert s[k..k + 1] == [s[k]];
    }
  }
}
