/**
  The string primitives the query engine relies on, written out with the
  semantics of .NET's ordinal string operations: Trim, Trim(chars), Contains,
  IndexOf, Split, Replace(pattern, ""), long.TryParse and the case folding
  behind StringComparer.OrdinalIgnoreCase.
*/
module Text {
  import opened Wrappers

  /** The characters for which char.IsWhiteSpace holds: TAB..CR, NEL, and the
      Unicode space, line and paragraph separators. string.Trim() strips these. */
  const WhiteSpace: set<char> := {
    '\t', '\n', '\U{000B}', '\U{000C}', '\r', ' ', '\U{0085}', '\U{00A0}', '\U{1680}',
    '\U{2000}', '\U{2001}', '\U{2002}', '\U{2003}', '\U{2004}', '\U{2005}', '\U{2006}',
    '\U{2007}', '\U{2008}', '\U{2009}', '\U{200A}', '\U{2028}', '\U{2029}', '\U{202F}',
    '\U{205F}', '\U{3000}'
  }

  /** The quote characters that the value of a condition is stripped of. */
  const Quotes: set<char> := {'\'', '"'}

  // ---------------------------------------------------------------------------
  // Trimming
  // ---------------------------------------------------------------------------

  /** Drops the longest prefix made of characters in cs. */
  function TrimStart(s: string, cs: set<char>): (r: string)
    ensures |r| <= |s| && r == s[|s| - |r|..]
    ensures forall j :: 0 <= j < |s| - |r| ==> s[j] in cs
    ensures r == [] || r[0] !in cs
  {
    if |s| > 0 && s[0] in cs then TrimStart(s[1..], cs) else s
  }

  /** Drops the longest suffix made of characters in cs. */
  function TrimEnd(s: string, cs: set<char>): (r: string)
    ensures |r| <= |s| && r == s[..|r|]
    ensures forall j :: |r| <= j < |s| ==> s[j] in cs
    ensures r == [] || r[|r| - 1] !in cs
  {
    if |s| > 0 && s[|s| - 1] in cs then TrimEnd(s[..|s| - 1], cs) else s
  }

  /** string.Trim(params char[] cs): strips cs-characters from both ends. */
  function TrimChars(s: string, cs: set<char>): (r: string)
    ensures |r| <= |s|
  {
    TrimEnd(TrimStart(s, cs), cs)
  }

  /** The result of TrimChars is the slice of s that starts at the first and
      ends at the last character outside cs: everything cut off is in cs, and
      the slice neither starts nor ends with a character of cs. */
  lemma TrimCharsSlice(s: string, cs: set<char>)
    ensures var r := TrimChars(s, cs);
      var a := |s| - |TrimStart(s, cs)|;
      && a + |r| <= |s| && r == s[a..a + |r|]
      && (forall j :: 0 <= j < a ==> s[j] in cs)
      && (forall j :: a + |r| <= j < |s| ==> s[j] in cs)
      && (r == [] || (r[0] !in cs && r[|r| - 1] !in cs))
  {
    TrimCharsIsSlice(s, cs);
    TrimCharsTail(s, cs);
    TrimCharsFirst(s, cs);
  }

  lemma TrimCharsIsSlice(s: string, cs: set<char>)
    ensures var a := |s| - |TrimStart(s, cs)|;
      a + |TrimChars(s, cs)| <= |s| && TrimChars(s, cs) == s[a..a + |TrimChars(s, cs)|]
  {
    var t := TrimStart(s, cs);
    var r := TrimEnd(t, cs);
    SliceOfSuffix(s, |s| - |t|, t, r);
  }

  /** A prefix of a suffix of s is a slice of s. */
  lemma SliceOfSuffix(s: string, a: nat, t: string, r: string)
    requires a <= |s| && t == s[a..] && |r| <= |t| && r == t[..|r|]
    ensures a + |r| <= |s| && r == s[a..a + |r|]
  {
    forall i | 0 <= i < |r|
      ensures r[i] == s[a + i]
    {
      assert r[i] == t[i];
    }
  }

  lemma TrimCharsTail(s: string, cs: set<char>)
    ensures forall j :: |s| - |TrimStart(s, cs)| + |TrimChars(s, cs)| <= j < |s| ==> s[j] in cs
  {
    var t := TrimStart(s, cs);
    var r := TrimEnd(t, cs);
    var a := |s| - |t|;
    forall j | a + |r| <= j < |s|
      ensures s[j] in cs
    {
      assert s[j] == t[j - a];
    }
  }

  lemma TrimCharsFirst(s: string, cs: set<char>)
    ensures TrimChars(s, cs) == [] || TrimChars(s, cs)[0] !in cs
  {
    var t := TrimStart(s, cs);
    var r := TrimEnd(t, cs);
    if r != [] {
      assert r[0] == t[0];
    }
  }

  /** string.Trim(): strips white space from both ends. */
  function Trim(s: string): string
  {
    TrimChars(s, WhiteSpace)
  }

  /** Trimming is idempotent: a trimmed string starts and ends outside cs. */
  lemma TrimCharsIdempotent(s: string, cs: set<char>)
    ensures TrimChars(TrimChars(s, cs), cs) == TrimChars(s, cs)
  {
    var r := TrimChars(s, cs);
    TrimCharsSlice(s, cs);
    assert TrimStart(r, cs) == r;
    assert TrimEnd(r, cs) == r;
  }

  /** A string that neither starts nor ends with a character of cs. */
  predicate Trimmed(s: string, cs: set<char>)
  {
    s == [] || (s[0] !in cs && s[|s| - 1] !in cs)
  }

  /** Trimming leaves a string that is already trimmed as it is. */
  lemma TrimCharsFixed(s: string, cs: set<char>)
    requires Trimmed(s, cs)
    ensures TrimChars(s, cs) == s
  {
  }

  // ---------------------------------------------------------------------------
  // Searching
  // ---------------------------------------------------------------------------

  /** string.IndexOf(char): the first position of c in s, if any. */
  function IndexOf(s: string, c: char): (r: Option<nat>)
    ensures r.None? <==> c !in s
    ensures r.Some? ==> r.value < |s| && s[r.value] == c && c !in s[..r.value]
  {
    if s == [] then None
    else if s[0] == c then Some(0)
    else match IndexOf(s[1..], c)
      case None => None
      case Some(k) => assert s[..k + 1] == [s[0]] + s[1..][..k]; Some(k + 1)
  }
  /** The first occurrence is the one with no occurrence before it. */
  lemma IndexOfIs(s: string, c: char, i: nat)
    requires i < |s| && s[i] == c && c !in s[..i]
    ensures IndexOf(s, c) == Some(i)
  {
    var r := IndexOf(s, c).value;
    assert forall j :: 0 <= j < i ==> s[..i][j] == s[j];
    assert forall j :: 0 <= j < r ==> s[..r][j] == s[j];
  }

  /** sep occurs in s starting at position i. */
  predicate OccursAt(s: string, sep: string, i: nat)
  {
    i + |sep| <= |s| && s[i..i + |sep|] == sep
  }

  /** string.IndexOf(string, StringComparison.Ordinal): the first position at
      which sep occurs in s, if any. */
  function IndexOfSub(s: string, sep: string): (r: Option<nat>)
    requires |sep| > 0
    ensures r.Some? ==> OccursAt(s, sep, r.value)
    ensures r.Some? ==> forall j: nat :: j < r.value ==> !OccursAt(s, sep, j)
    ensures r.None? ==> forall j: nat :: !OccursAt(s, sep, j)
    decreases |s|
  {
    if |s| < |sep| then None
    else if s[..|sep|] == sep then Some(0)
    else match IndexOfSub(s[1..], sep)
      case None =>
        assert forall j: nat :: OccursAt(s, sep, j + 1) ==> OccursAt(s[1..], sep, j) by {
          forall j: nat | OccursAt(s, sep, j + 1) ensures OccursAt(s[1..], sep, j) {
            assert s[1..][j..j + |sep|] == s[j + 1..j + 1 + |sep|];
          }
        }
        assert forall j: nat :: !OccursAt(s, sep, j) by {
          forall j: nat ensures !OccursAt(s, sep, j) {
            if j > 0 { assert !OccursAt(s[1..], sep, j - 1); }
          }
        }
        None
      case Some(k) =>
        assert s[1..][k..k + |sep|] == s[k + 1..k + 1 + |sep|];
        assert forall j: nat :: j < k + 1 ==> !OccursAt(s, sep, j) by {
          forall j: nat | j < k + 1 ensures !OccursAt(s, sep, j) {
            if j > 0 {
              assert !OccursAt(s[1..], sep, j - 1);
              if j + |sep| <= |s| { assert s[1..][j - 1..j - 1 + |sep|] == s[j..j + |sep|]; }
            }
          }
        }
        Some(k + 1)
  }

  /** string.Contains(string): an ordinal substring test. */
  predicate Contains(s: string, sep: string)
    requires |sep| > 0
  {
    IndexOfSub(s, sep).Some?
  }

  /** An occurrence of sep inside the prefix s[..k] is an occurrence in s. */
  lemma PrefixOccurrence(s: string, sep: string, k: nat, j: nat)
    requires k <= |s| && OccursAt(s[..k], sep, j)
    ensures OccursAt(s, sep, j)
  {
    assert s[..k][j..j + |sep|] == s[j..j + |sep|];
  }

  // ---------------------------------------------------------------------------
  // Splitting, joining and removing
  // ---------------------------------------------------------------------------

  /** string.Join(sep, parts). */
  function Join(parts: seq<string>, sep: string): string
  {
    if parts == [] then ""
    else if |parts| == 1 then parts[0]
    else parts[0] + sep + Join(parts[1..], sep)
  }

  /** An occurrence with no occurrence before it is the one IndexOfSub finds. */
  lemma FirstOccurrence(s: string, sep: string, i: nat)
    requires |sep| > 0 && OccursAt(s, sep, i)
    requires forall j: nat :: j < i ==> !OccursAt(s, sep, j)
    ensures IndexOfSub(s, sep) == Some(i)
  {
  }

  /** The text before an occurrence of sep, followed by sep, is a prefix. */
  lemma PrefixThroughOccurrence(s: string, sep: string, k: nat)
    requires OccursAt(s, sep, k)
    ensures s[..k] + sep == s[..k + |sep|]
  {
    var n := k + |sep|;
    assert s[k..n] == sep;
    forall i | 0 <= i < n
      ensures s[..n][i] == (s[..k] + sep)[i]
    {
      if i >= k {
        assert sep[i - k] == s[k..n][i - k];
      }
    }
  }

  /** A prefix of s has no occurrence of sep where s has none. */
  lemma NoOccurrenceInPrefix(s: string, sep: string, k: nat, n: nat)
    requires n <= |s| && forall j: nat :: j < k ==> !OccursAt(s, sep, j)
    ensures forall j: nat :: j < k ==> !OccursAt(s[..n], sep, j)
  {
    forall j: nat | j < k && OccursAt(s[..n], sep, j)
      ensures false
    {
      PrefixOccurrence(s, sep, n, j);
    }
  }

  /** The text before the first occurrence of sep, followed by sep, has its
      first occurrence of sep at the same place. */
  lemma HeadEndsAtFirst(s: string, sep: string, k: nat)
    requires |sep| > 0 && IndexOfSub(s, sep) == Some(k)
    ensures IndexOfSub(s[..k] + sep, sep) == Some(k)
  {
    var n := k + |sep|;
    PrefixThroughOccurrence(s, sep, k);
    NoOccurrenceInPrefix(s, sep, k, n);
    assert s[..n][k..n] == sep;
    FirstOccurrence(s[..n], sep, k);
  }

  /** Part p is cut at the first occurrence of sep after its start: sep
      first occurs in p + sep right after p. */
  predicate EndsAtFirst(p: string, sep: string)
    requires |sep| > 0
  {
    IndexOfSub(p + sep, sep) == Some(|p|)
  }

  /** string.Split(sep) with default options: cut s at every occurrence of sep,
      scanning left to right without overlap, and keep empty parts. The parts
      join back to s, and none of them contains sep. */
  function SplitOn(s: string, sep: string): (parts: seq<string>)
    requires |sep| > 0
    ensures |parts| >= 1
    ensures |parts| > 1 <==> Contains(s, sep)
    ensures forall p :: p in parts ==> !Contains(p, sep)
    ensures Join(parts, sep) == s
    decreases |s|
  {
    match IndexOfSub(s, sep)
    case None => [s]
    case Some(k) =>
      var head := s[..k];
      var rest := SplitOn(s[k + |sep|..], sep);
      assert !Contains(head, sep) by {
        if Contains(head, sep) {
          var j := IndexOfSub(head, sep).value;
          PrefixOccurrence(s, sep, k, j);
        }
      }
      assert s == head + sep + s[k + |sep|..];
      [head] + rest
  }

  /** Split cuts at the leftmost occurrences: every part but the last ends
      where sep first occurs after the part's start. */
  lemma {:induction false} SplitOnLeftmost(s: string, sep: string)
    requires |sep| > 0
    ensures forall i :: 0 <= i < |SplitOn(s, sep)| - 1 ==> EndsAtFirst(SplitOn(s, sep)[i], sep)
    decreases |s|
  {
    match IndexOfSub(s, sep)
    case None =>
    case Some(k) =>
      var rest := SplitOn(s[k + |sep|..], sep);
      SplitOnLeftmost(s[k + |sep|..], sep);
      HeadEndsAtFirst(s, sep, k);
      var parts := SplitOn(s, sep);
      assert parts == [s[..k]] + rest;
      forall i | 0 <= i < |parts| - 1
        ensures EndsAtFirst(parts[i], sep)
      {
        if i > 0 {
          assert parts[i] == rest[i - 1];
        }
      }
  }

  /** string.Replace(pat, ""): deletes every occurrence of pat, scanning left
      to right without overlap. The result is never longer than s. */
  function RemoveAll(s: string, pat: string): (r: string)
    requires |pat| > 0
    ensures |r| <= |s|
    ensures !Contains(s, pat) ==> r == s
    decreases |s|
  {
    match IndexOfSub(s, pat)
    case None => s
    case Some(k) => s[..k] + RemoveAll(s[k + |pat|..], pat)
  }

  /** Replace(pat, "") and Split(pat) cut at the same places: deleting every
      occurrence is joining the split parts with nothing in between. */
  lemma {:induction false} RemoveAllIsJoinOfSplit(s: string, pat: string)
    requires |pat| > 0
    ensures RemoveAll(s, pat) == Join(SplitOn(s, pat), "")
    decreases |s|
  {
    match IndexOfSub(s, pat)
    case None =>
    case Some(k) =>
      var rest := s[k + |pat|..];
      RemoveAllIsJoinOfSplit(rest, pat);
      var parts := SplitOn(rest, pat);
      assert SplitOn(s, pat) == [s[..k]] + parts;
      assert |parts| >= 1;
      assert Join([s[..k]] + parts, "") == s[..k] + "" + Join(parts, "") by {
        assert ([s[..k]] + parts)[1..] == parts;
      }
  }

  // ---------------------------------------------------------------------------
  // Case folding
  // ---------------------------------------------------------------------------

  /** The upper-case form that StringComparer.OrdinalIgnoreCase compares by,
      for the ASCII letters. */
  function FoldChar(c: char): char
  {
    if 'a' <= c <= 'z' then (c as int - 32) as char else c
  }

  /** The key under which an OrdinalIgnoreCase dictionary files a string: two
      strings are the same key exactly when their folds are equal. Folding
      keeps the length. */
  function Fold(s: string): (r: string)
    ensures |r| == |s|
  {
    seq(|s|, i requires 0 <= i < |s| => FoldChar(s[i]))
  }

  // ---------------------------------------------------------------------------
  // Integer parsing
  // ---------------------------------------------------------------------------

  /** The white space NumberStyles.Integer allows around a number. */
  const NumberWhite: set<char> := {'\t', '\n', '\U{000B}', '\U{000C}', '\r', ' '}

  const MinInt64: int := -0x8000_0000_0000_0000
  const MaxInt64: int := 0x7FFF_FFFF_FFFF_FFFF

  predicate IsInt64(n: int)
  {
    MinInt64 <= n <= MaxInt64
  }

  predicate IsDigit(c: char)
  {
    '0' <= c <= '9'
  }

  predicate AllDigits(ds: string)
  {
    forall i :: 0 <= i < |ds| ==> IsDigit(ds[i])
  }

  /** The value of a string of decimal digits, most significant first. */
  function DigitsValue(ds: string): nat
    requires AllDigits(ds)
  {
    if ds == [] then 0
    else DigitsValue(ds[..|ds| - 1]) * 10 + (ds[|ds| - 1] as int - '0' as int)
  }

  /** The integer written in t as an optional '+' or '-' and then at least
      one decimal digit. */
  function ParseSigned(t: string): Option<int>
  {
    var negative := |t| > 0 && t[0] == '-';
    var ds := if |t| > 0 && (t[0] == '-' || t[0] == '+') then t[1..] else t;
    if |ds| > 0 && AllDigits(ds) then
      var v: int := DigitsValue(ds);
      Some(if negative then -v else v)
    else None
  }

  /** The integer that NumberStyles.Integer reads from s, with no range limit:
      optional white space, an optional '+' or '-', at least one digit,
      optional white space. */
  function ParseInteger(s: string): Option<int>
  {
    ParseSigned(TrimChars(s, NumberWhite))
  }

  /** long.TryParse: ParseInteger, failing outside the signed 64-bit range. */
  function ParseInt64(s: string): (r: Option<int>)
    ensures r.Some? ==> IsInt64(r.value) && ParseInteger(s) == r
    ensures r.None? <==> (ParseInteger(s).None? || !IsInt64(ParseInteger(s).value))
  {
    match ParseInteger(s)
    case Some(v) => if IsInt64(v) then Some(v) else None
    case None => None
  }

  /** Every character of w is in cs. */
  predicate Within(w: string, cs: set<char>)
  {
    forall j :: 0 <= j < |w| ==> w[j] in cs
  }

  /** t is an optional '+' or '-' and then decimal digits whose value,
      signed, is v. */
  ghost predicate SignedDigits(t: string, v: int)
  {
    && |t| > 0
    && var d := if t[0] == '-' || t[0] == '+' then 1 else 0;
       && d < |t| && AllDigits(t[d..])
       && v == if t[0] == '-' then -(DigitsValue(t[d..]) as int) else DigitsValue(t[d..])
  }

  /** The shape NumberStyles.Integer accepts, located in s: white space before
      a, signed digits of value v from a to b, white space from b on. */
  ghost predicate NumberBetween(s: string, a: int, b: int, v: int)
  {
    && 0 <= a < b <= |s|
    && Within(s[..a], NumberWhite) && Within(s[b..], NumberWhite)
    && SignedDigits(s[a..b], v)
  }

  /** ParseSigned reads exactly the signed digit texts, to their values. */
  lemma ParseSignedShape(t: string, v: int)
    ensures ParseSigned(t) == Some(v) <==> SignedDigits(t, v)
  {
    if |t| > 0 && (t[0] == '-' || t[0] == '+') {
      assert t[1..] == t[1..];
    }
  }

  /** Signed digits start and end outside the white space. */
  lemma SignedDigitsEnds(t: string, v: int)
    requires SignedDigits(t, v)
    ensures t[0] !in NumberWhite && t[|t| - 1] !in NumberWhite
  {
    var d := if t[0] == '-' || t[0] == '+' then 1 else 0;
    assert IsDigit(t[d..][|t| - 1 - d]);
    assert IsDigit(t[d..][0]);
  }

  /** TrimStart drops a prefix of characters of cs up to a character
      outside cs. */
  lemma {:induction false} TrimStartPadded(w: string, x: string, cs: set<char>)
    requires Within(w, cs) && |x| > 0 && x[0] !in cs
    ensures TrimStart(w + x, cs) == x
    decreases |w|
  {
    if w == [] {
      assert w + x == x;
    } else {
      assert (w + x)[0] == w[0] && (w + x)[1..] == w[1..] + x;
      assert Within(w[1..], cs) by {
        forall j | 0 <= j < |w| - 1 ensures w[1..][j] in cs { assert w[1..][j] == w[j + 1]; }
      }
      TrimStartPadded(w[1..], x, cs);
    }
  }

  /** TrimEnd drops a suffix of characters of cs back to a character
      outside cs. */
  lemma {:induction false} TrimEndPadded(x: string, w: string, cs: set<char>)
    requires Within(w, cs) && |x| > 0 && x[|x| - 1] !in cs
    ensures TrimEnd(x + w, cs) == x
    decreases |w|
  {
    if w == [] {
      assert x + w == x;
    } else {
      var n := |w| - 1;
      assert (x + w)[|x| + n] == w[n] && (x + w)[..|x| + n] == x + w[..n];
      assert Within(w[..n], cs) by {
        forall j | 0 <= j < n ensures w[..n][j] in cs { assert w[..n][j] == w[j]; }
      }
      TrimEndPadded(x, w[..n], cs);
    }
  }

  /** Trimming cs from a text padded with characters of cs leaves the text,
      when it starts and ends outside cs. */
  lemma TrimCharsPadded(w1: string, x: string, w2: string, cs: set<char>)
    requires |x| > 0 && x[0] !in cs && x[|x| - 1] !in cs
    requires Within(w1, cs) && Within(w2, cs)
    ensures TrimChars(w1 + x + w2, cs) == x
  {
    assert w1 + x + w2 == w1 + (x + w2);
    TrimStartPadded(w1, x + w2, cs);
    TrimEndPadded(x, w2, cs);
  }

  /** Trimming a text whose outer characters are in cs, around a part
      starting and ending outside cs, leaves exactly that part. */
  lemma TrimCharsExact(s: string, a: int, b: int, cs: set<char>)
    requires 0 <= a < b <= |s| && s[a] !in cs && s[b - 1] !in cs
    requires Within(s[..a], cs) && Within(s[b..], cs)
    ensures TrimChars(s, cs) == s[a..b]
  {
    assert s == s[..a] + s[a..b] + s[b..];
    TrimCharsPadded(s[..a], s[a..b], s[b..], cs);
  }

  /** Trimming keeps a slice of s with only characters of cs around it. */
  lemma TrimCharsFrame(s: string, cs: set<char>) returns (a: nat, b: nat)
    ensures a <= b <= |s| && TrimChars(s, cs) == s[a..b]
    ensures Within(s[..a], cs) && Within(s[b..], cs)
  {
    TrimCharsSlice(s, cs);
    a := |s| - |TrimStart(s, cs)|;
    b := a + |TrimChars(s, cs)|;
    assert Within(s[..a], cs) by {
      forall j | 0 <= j < a ensures s[..a][j] in cs { assert s[..a][j] == s[j]; }
    }
    assert Within(s[b..], cs) by {
      forall j | 0 <= j < |s| - b ensures s[b..][j] in cs { assert s[b..][j] == s[b + j]; }
    }
  }

  /** A character outside cs survives trimming, at its offset from the
      first kept character. */
  lemma TrimCharsKeeps(s: string, cs: set<char>, i: int)
    requires 0 <= i < |s| && s[i] !in cs
    ensures var a := |s| - |TrimStart(s, cs)|;
      a <= i < a + |TrimChars(s, cs)| && TrimChars(s, cs)[i - a] == s[i]
  {
    TrimCharsSlice(s, cs);
  }

  /** Every text of the accepted shape parses, to its value. */
  lemma ParseIntegerComplete(s: string, a: int, b: int, v: int)
    requires NumberBetween(s, a, b, v)
    ensures ParseInteger(s) == Some(v)
  {
    SignedDigitsEnds(s[a..b], v);
    TrimCharsExact(s, a, b, NumberWhite);
    ParseSignedShape(s[a..b], v);
  }

  /** Every text that parses has the accepted shape. */
  lemma ParseIntegerSound(s: string)
    requires ParseInteger(s).Some?
    ensures exists a, b :: NumberBetween(s, a, b, ParseInteger(s).value)
  {
    var t := TrimChars(s, NumberWhite);
    var v := ParseInteger(s).value;
    var a, b := TrimCharsFrame(s, NumberWhite);
    assert ParseSigned(t) == Some(v);
    ParseSignedShape(t, v);
    assert NumberBetween(s, a, b, v);
  }

  /** A text holding a character that is no digit, sign or white space does
      not parse. */
  lemma ParseIntegerRejects(s: string, i: int)
    requires 0 <= i < |s| && !IsDigit(s[i]) && s[i] !in NumberWhite && s[i] != '-' && s[i] != '+'
    ensures ParseInteger(s).None?
  {
    TrimCharsKeeps(s, NumberWhite, i);
    ParseSignedRejects(TrimChars(s, NumberWhite), i - (|s| - |TrimStart(s, NumberWhite)|));
  }

  /** A sign or digit text holding some other character does not parse. */
  lemma ParseSignedRejects(t: string, j: int)
    requires 0 <= j < |t| && !IsDigit(t[j]) && t[j] != '-' && t[j] != '+'
    ensures ParseSigned(t).None?
  {
    if t[0] == '-' || t[0] == '+' {
      assert t[1..][j - 1] == t[j];
    }
  }

  /** The decimal digit for d. */
  function DigitChar(d: nat): char
    requires d < 10
  {
    ('0' as int + d) as char
  }

  /** The decimal digits of m, most significant first, without leading
      zeros. */
  function Digits(m: nat): (ds: string)
    ensures |ds| > 0 && AllDigits(ds)
    decreases m
  {
    if m < 10 then [DigitChar(m)] else Digits(m / 10) + [DigitChar(m % 10)]
  }

  /** The decimal text of n, as long.ToString writes it: '-' before the
      digits of a negative number. */
  function Decimal(n: int): string
  {
    if n < 0 then "-" + Digits(-n) else Digits(n)
  }

  /** The digits of m have value m. */
  lemma {:induction false} DigitsValueOf(m: nat)
    ensures DigitsValue(Digits(m)) == m
    decreases m
  {
    if m >= 10 {
      DigitsValueOf(m / 10);
      var ds := Digits(m);
      assert ds[..|ds| - 1] == Digits(m / 10);
    }
  }

  /** The signed reading of the decimal text of n is n. */
  lemma ParseSignedDecimal(n: int)
    ensures ParseSigned(Decimal(n)) == Some(n)
  {
    var m: nat := if n < 0 then -n else n;
    DigitsValueOf(m);
    if n < 0 {
      assert Decimal(n)[1..] == Digits(m);
    } else {
      assert IsDigit(Digits(m)[0]);
    }
  }

  /** Between white space, the decimal text of n parses to n, and a 64-bit
      parse succeeds exactly when n is in the signed 64-bit range. */
  lemma ParseInt64Padded(w1: string, n: int, w2: string)
    requires Within(w1, NumberWhite) && Within(w2, NumberWhite)
    ensures ParseInteger(w1 + Decimal(n) + w2) == Some(n)
    ensures ParseInt64(w1 + Decimal(n) + w2) == if IsInt64(n) then Some(n) else None
  {
    var x := Decimal(n);
    ParseSignedDecimal(n);
    assert x[0] !in NumberWhite && x[|x| - 1] !in NumberWhite;
    TrimCharsPadded(w1, x, w2, NumberWhite);
  }

  /** The decimal text of every integer parses back to it. */
  lemma ParseDecimal(n: int)
    ensures ParseInteger(Decimal(n)) == Some(n)
  {
    ParseInt64Padded("", n, "");
    assert "" + Decimal(n) + "" == Decimal(n);
  }
}
