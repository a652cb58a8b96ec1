/** The string operations the validators and payload builders use, written
    over `seq<char>`: whitespace, `Trim`, `Length`, and the two regular
    expressions of the validators as hand-written matchers. */
module Text {
  import opened Nullable

  /** `char.IsWhiteSpace`, which is also the .NET regex class `\s`:
      U+0009..U+000D, U+0085 and the Unicode separators (Zs, Zl, Zp). Every
      one lies in the Basic Multilingual Plane, and none is a letter, a digit,
      '@' or '.', the characters the two patterns are built from. */
  function IsWhiteSpace(c: char): (r: bool)
    ensures r ==> c as int < 0x10000
    ensures ('a' <= c <= 'z' || 'A' <= c <= 'Z' || '0' <= c <= '9' || c == '@' || c == '.') ==> !r
  {
    var n := c as int;
    || (0x09 <= n <= 0x0D) || n == 0x20 || n == 0x85 || n == 0xA0 || n == 0x1680
    || (0x2000 <= n <= 0x200A) || n == 0x2028 || n == 0x2029 || n == 0x202F
    || n == 0x205F || n == 0x3000
  }

  function AllWhiteSpace(s: string): (r: bool)
    ensures r <==> forall i :: 0 <= i < |s| ==> IsWhiteSpace(s[i])
  {
    if |s| == 0 then true else IsWhiteSpace(s[0]) && AllWhiteSpace(s[1..])
  }

  /** `string.IsNullOrEmpty`: null, or a `Length` of zero. An empty string
      is in particular all whitespace. */
  function IsNullOrEmpty(s: Option<string>): (r: bool)
    ensures r <==> s.None? || Utf16Length(s.value) == 0
    ensures r ==> IsNullOrWhiteSpace(s)
  {
    s.None? || s.value == ""
  }

  /** `string.IsNullOrWhiteSpace`: null, or only whitespace. */
  predicate IsNullOrWhiteSpace(s: Option<string>) {
    s.None? || AllWhiteSpace(s.value)
  }

  /** `IsNullOrWhiteSpace` holds exactly when the value is null or nothing is
      left after `Trim()`. */
  lemma NullOrWhiteSpaceTrimsToEmpty(s: Option<string>)
    ensures IsNullOrWhiteSpace(s) <==> s.None? || Trim(s.value) == []
  {
    if s.Some? {
      TrimIsEmptyIffBlank(s.value);
    }
  }

  /** `string.Length`: .NET strings are UTF-16, so a character outside the
      Basic Multilingual Plane takes two code units. */
  function Utf16Length(s: string): (n: nat)
    ensures |s| <= n <= 2 * |s|
  {
    if |s| == 0 then 0 else (if s[0] as int < 0x10000 then 1 else 2) + Utf16Length(s[1..])
  }

  /** Within the Basic Multilingual Plane, `Length` counts characters. */
  lemma {:induction false} Utf16LengthOfBmp(s: string)
    requires forall i :: 0 <= i < |s| ==> s[i] as int < 0x10000
    ensures Utf16Length(s) == |s|
  {
    if |s| > 0 {
      assert forall i :: 0 <= i < |s| - 1 ==> s[1..][i] == s[i + 1];
      Utf16LengthOfBmp(s[1..]);
    }
  }

  lemma {:induction false} Utf16LengthAppend(a: string, b: string)
    ensures Utf16Length(a + b) == Utf16Length(a) + Utf16Length(b)
  {
    if |a| > 0 {
      assert (a + b)[1..] == a[1..] + b;
      Utf16LengthAppend(a[1..], b);
    } else {
      assert a + b == b;
    }
  }

  /** The number of whitespace characters `TrimStart` removes. */
  function LeadingWhiteSpace(s: string): (n: nat)
    ensures n <= |s|
    ensures forall i :: 0 <= i < n ==> IsWhiteSpace(s[i])
    ensures n < |s| ==> !IsWhiteSpace(s[n])
  {
    if |s| == 0 || !IsWhiteSpace(s[0]) then 0 else 1 + LeadingWhiteSpace(s[1..])
  }

  /** The number of whitespace characters `TrimEnd` removes. */
  function TrailingWhiteSpace(s: string): (n: nat)
    ensures n <= |s|
    ensures forall i :: |s| - n <= i < |s| ==> IsWhiteSpace(s[i])
    ensures n < |s| ==> !IsWhiteSpace(s[|s| - 1 - n])
  {
    if |s| == 0 || !IsWhiteSpace(s[|s| - 1]) then 0 else 1 + TrailingWhiteSpace(s[..|s| - 1])
  }

  /** `r` is the part of `s` from position `a` on, with only whitespace
      before and after it in `s`. */
  ghost predicate PaddedBy(s: string, r: string, a: int) {
    && 0 <= a <= |s| - |r|
    && r == s[a..a + |r|]
    && (forall i :: 0 <= i < a ==> IsWhiteSpace(s[i]))
    && (forall i :: a + |r| <= i < |s| ==> IsWhiteSpace(s[i]))
  }

  /** `string.Trim()`: `s` with its leading and trailing whitespace removed, and
      nothing else changed. */
  function Trim(s: string): (r: string)
    ensures exists a :: PaddedBy(s, r, a)
    ensures r == [] || (!IsWhiteSpace(r[0]) && !IsWhiteSpace(r[|r| - 1]))
    ensures Utf16Length(r) <= Utf16Length(s)
  {
    TrimmedSlice(s);
    s[TrimStart(s)..TrimEnd(s)]
  }

  /** Where the trimmed part of `s` starts. */
  function TrimStart(s: string): nat {
    LeadingWhiteSpace(s)
  }

  /** Where the trimmed part of `s` ends. */
  function TrimEnd(s: string): nat {
    if LeadingWhiteSpace(s) == |s| then |s| else |s| - TrailingWhiteSpace(s)
  }

  /** `s[TrimStart(s)..TrimEnd(s)]` has only whitespace around it and no
      whitespace at either end. */
  lemma {:induction false} TrimmedSlice(s: string)
    ensures TrimStart(s) <= TrimEnd(s) <= |s|
    ensures PaddedBy(s, s[TrimStart(s)..TrimEnd(s)], TrimStart(s))
    ensures var r := s[TrimStart(s)..TrimEnd(s)];
      r == [] || (!IsWhiteSpace(r[0]) && !IsWhiteSpace(r[|r| - 1]))
    ensures Utf16Length(s[TrimStart(s)..TrimEnd(s)]) <= Utf16Length(s)
  {
    var a, b := TrimStart(s), TrimEnd(s);
    if a < b {
      assert s[a..b][0] == s[a];
      assert s[a..b][b - a - 1] == s[b - 1];
    }
    PaddedSlice(s, a, b);
    SliceUtf16Length(s, a, b);
  }

  /** `s[a..b]` is padded by `s` when only whitespace lies outside it. */
  lemma {:induction false} PaddedSlice(s: string, a: nat, b: nat)
    requires a <= b <= |s|
    requires forall i :: 0 <= i < a ==> IsWhiteSpace(s[i])
    requires forall i :: b <= i < |s| ==> IsWhiteSpace(s[i])
    ensures PaddedBy(s, s[a..b], a)
  {
    assert a + |s[a..b]| == b;
  }

  lemma {:induction false} SliceUtf16Length(s: string, a: nat, b: nat)
    requires a <= b <= |s|
    ensures Utf16Length(s[a..b]) <= Utf16Length(s)
  {
    var t := s[..b];
    assert s == t + s[b..];
    Utf16LengthAppend(t, s[b..]);
    assert t == t[..a] + s[a..b];
    Utf16LengthAppend(t[..a], s[a..b]);
  }

  /** `s?.Trim()`: null stays null, and a string is trimmed. The result is
      null or empty exactly when the input was null or whitespace. */
  function TrimOrNull(s: Option<string>): (r: Option<string>)
    ensures r.Some? <==> s.Some?
    ensures IsNullOrEmpty(r) <==> IsNullOrWhiteSpace(s)
  {
    if s.Some? then
      NullOrWhiteSpaceTrimsToEmpty(s);
      Some(Trim(s.value))
    else None
  }

  lemma TrimIsEmptyIffBlank(s: string)
    ensures Trim(s) == [] <==> AllWhiteSpace(s)
  {
    if Trim(s) == [] {
      var a :| PaddedBy(s, [], a);
      forall i | 0 <= i < |s| ensures IsWhiteSpace(s[i]) {
        if i < a { assert s[..a][i] == s[i]; } else { assert s[a..][i - a] == s[i]; }
      }
    } else {
      var r := Trim(s);
      assert r[0] in s;
    }
  }

  lemma {:induction false} TrimIdempotent(s: string)
    ensures Trim(Trim(s)) == Trim(s)
  {
    var r := Trim(s);
    if r != [] {
      TrimOfUnpadded(r);
    }
  }

  /** A string that neither starts nor ends with whitespace is its own trim. */
  lemma TrimOfUnpadded(s: string)
    requires s != [] && !IsWhiteSpace(s[0]) && !IsWhiteSpace(s[|s| - 1])
    ensures Trim(s) == s
  {
    var r := Trim(s);
    var a :| PaddedBy(s, r, a);
  }

  /** A string with no whitespace followed by a final "\n" trims back to itself. */
  lemma TrimDropsFinalNewline(c: string)
    requires c != [] && forall k :: 0 <= k < |c| ==> !IsWhiteSpace(c[k])
    ensures Trim(c + "\n") == c
  {
    var s := c + "\n";
    var r := Trim(s);
    var a :| PaddedBy(s, r, a);
    assert s[0] == c[0] && s[|c| - 1] == c[|c| - 1];
    PaddingIsWhiteSpace(s, r, a, 0);
    PaddingIsWhiteSpace(s, r, a, |c| - 1);
    assert |r| != |c| + 1 by { assert s[|s| - 1] == '\n'; }
    assert r == c;
  }

  /** Every non-whitespace character of `s` lies inside the part it is padded around. */
  lemma PaddingIsWhiteSpace(s: string, r: string, a: int, k: int)
    requires PaddedBy(s, r, a) && 0 <= k < |s| && !IsWhiteSpace(s[k])
    ensures a <= k < a + |r|
  {
  }

  /** The character class `[a-zA-Z0-9\s]` the address fields are held to. */
  predicate IsAddressChar(c: char) {
    ('a' <= c <= 'z') || ('A' <= c <= 'Z') || ('0' <= c <= '9') || IsWhiteSpace(c)
  }

  /** `Regex.IsMatch(s, @"[^a-zA-Z0-9\s]")`: some character is outside the class. */
  function HasDisallowedChar(s: string): (r: bool)
    ensures r <==> exists i :: 0 <= i < |s| && !IsAddressChar(s[i])
  {
    if |s| == 0 then false
    else if !IsAddressChar(s[0]) then true
    else
      assert forall i :: 1 <= i < |s| ==> s[1..][i - 1] == s[i];
      HasDisallowedChar(s[1..])
  }

  /** Trimming cannot bring in a character outside `[a-zA-Z0-9\s]`. */
  lemma TrimKeepsAddressChars(s: string)
    requires forall i :: 0 <= i < |s| ==> IsAddressChar(s[i])
    ensures forall i :: 0 <= i < |Trim(s)| ==> IsAddressChar(Trim(s)[i])
  {
    var a, b := TrimStart(s), TrimEnd(s);
    if a < b {
      var r := Trim(s);
      assert r == s[a..b];
      forall i | 0 <= i < |r| ensures IsAddressChar(r[i]) {
        assert r[i] == s[a + i];
      }
    }
  }

  /** A character of the class `[^\s@]`. */
  predicate IsEmailChar(c: char) {
    !IsWhiteSpace(c) && c != '@'
  }

  predicate AllEmailChars(s: string) {
    forall k :: 0 <= k < |s| ==> IsEmailChar(s[k])
  }

  /** The first position of `c` in `s`. */
  function IndexOf(s: string, c: char): (r: Option<nat>)
    ensures r.Some? ==> r.value < |s| && s[r.value] == c && forall k :: 0 <= k < r.value ==> s[k] != c
    ensures r.None? ==> forall k :: 0 <= k < |s| ==> s[k] != c
  {
    if |s| == 0 then None
    else if s[0] == c then Some(0)
    else
      match IndexOf(s[1..], c)
      case None => None
      case Some(i) => Some(i + 1)
  }

  /** A '.' that is neither the first nor the last character. */
  predicate HasInnerDot(d: string) {
    exists k :: 0 < k < |d| - 1 && d[k] == '.'
  }

  /** Matcher for `[^\s@]+@[^\s@]+\.[^\s@]+` against the whole of `c`: the
      text before the only '@' is non-empty, and the text after it has no
      whitespace or '@' and a '.' with something on both sides. */
  predicate IsEmailCore(c: string) {
    match IndexOf(c, '@')
    case None => false
    case Some(at) =>
      && 0 < at
      && AllEmailChars(c[..at])
      && AllEmailChars(c[at + 1..])
      && HasInnerDot(c[at + 1..])
  }

  /** `Regex.IsMatch(s, @"^[^\s@]+@[^\s@]+\.[^\s@]+$")`. Without the Multiline
      option .NET's `$` also matches just before a final "\n". The matcher
      accepts exactly the strings the pattern describes. */
  function IsEmailAddress(s: string): (r: bool)
    ensures r <==> MatchesEmailPattern(s)
  {
    EmailCoreSplits(s);
    if 0 < |s| && s[|s| - 1] == '\n' then
      EmailCoreSplits(s[..|s| - 1]);
      IsEmailCore(s) || IsEmailCore(s[..|s| - 1])
    else
      IsEmailCore(s)
  }

  /** The pattern read as a decomposition: three non-empty runs of `[^\s@]`
      separated by '@' and '.'. */
  ghost predicate SplitsAsEmail(c: string) {
    exists i, j ::
      && 0 < i && i + 1 < j && j + 1 < |c|
      && c[i] == '@' && c[j] == '.'
      && AllEmailChars(c[..i]) && AllEmailChars(c[i + 1..j]) && AllEmailChars(c[j + 1..])
  }

  ghost predicate MatchesEmailPattern(s: string) {
    || SplitsAsEmail(s)
    || (0 < |s| && s[|s| - 1] == '\n' && SplitsAsEmail(s[..|s| - 1]))
  }

  lemma EmailCoreSplits(c: string)
    ensures IsEmailCore(c) <==> SplitsAsEmail(c)
  {
    if IsEmailCore(c) {
      EmailCoreHasSplit(c);
    }
    if SplitsAsEmail(c) {
      var i, j :| && 0 < i && i + 1 < j && j + 1 < |c|
                  && c[i] == '@' && c[j] == '.'
                  && AllEmailChars(c[..i]) && AllEmailChars(c[i + 1..j]) && AllEmailChars(c[j + 1..]);
      SplitIsEmailCore(c, i, j);
    }
  }

  lemma EmailCoreHasSplit(c: string)
    requires IsEmailCore(c)
    ensures SplitsAsEmail(c)
  {
    var at := IndexOf(c, '@').value;
    var d := c[at + 1..];
    var k :| 0 < k < |d| - 1 && d[k] == '.';
    var j := at + 1 + k;
    assert c[at + 1..j] == d[..k];
    assert c[j + 1..] == d[k + 1..];
    assert c[j] == '.';
    assert AllEmailChars(c[at + 1..j]);
    assert AllEmailChars(c[j + 1..]);
  }

  lemma SplitIsEmailCore(c: string, i: nat, j: nat)
    requires 0 < i && i + 1 < j && j + 1 < |c|
    requires c[i] == '@' && c[j] == '.'
    requires AllEmailChars(c[..i]) && AllEmailChars(c[i + 1..j]) && AllEmailChars(c[j + 1..])
    ensures IsEmailCore(c)
  {
    assert IsEmailChar('.');
    var r := IndexOf(c, '@');
    assert r.Some? && r.value <= i;
    assert r.value == i;
    var d := c[i + 1..];
    forall k | 0 <= k < |d| ensures IsEmailChar(d[k]) {
      if k < j - i - 1 {
        assert d[k] == c[i + 1..j][k];
      } else if k > j - i - 1 {
        assert d[k] == c[j + 1..][k - (j - i)];
      }
    }
    assert d[j - i - 1] == '.';
  }

  /** An address accepted by the core matcher holds no whitespace at all. */
  lemma EmailCoreHasNoWhiteSpace(c: string)
    requires IsEmailCore(c)
    ensures c != [] && forall k :: 0 <= k < |c| ==> !IsWhiteSpace(c[k])
  {
    var at := IndexOf(c, '@').value;
    forall k | 0 <= k < |c| ensures !IsWhiteSpace(c[k]) {
      if k < at {
        assert c[..at][k] == c[k];
      } else if k > at {
        assert c[at + 1..][k - at - 1] == c[k];
      }
    }
  }

  /** Trimming an accepted address leaves one the core matcher accepts: the
      only whitespace an accepted address can hold is the final "\n". */
  lemma TrimEmailAddress(s: string)
    requires IsEmailAddress(s)
    ensures IsEmailCore(Trim(s))
  {
    if IsEmailCore(s) {
      EmailCoreHasNoWhiteSpace(s);
      TrimOfUnpadded(s);
    } else {
      var c := s[..|s| - 1];
      EmailCoreHasNoWhiteSpace(c);
      assert s == c + "\n";
      TrimDropsFinalNewline(c);
    }
  }
}
