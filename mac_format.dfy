/** The MAC normaliser of Add_Mac_ISE.py (format_mac) and the whitespace
    stripping the read loop applies to every line before calling it.

    Characters are modelled as ASCII: a hexadecimal digit is one of 0-9, a-f,
    A-F. Case is kept exactly as it appears in the input. */
module MacFormat {

  /** What the cleaning step keeps: an ASCII hexadecimal digit, either case. */
  predicate IsHexDigit(c: char) {
    ('0' <= c <= '9') || ('a' <= c <= 'f') || ('A' <= c <= 'F')
  }

  predicate NotColon(c: char) {
    c != ':'
  }

  /** Whitespace as str.strip() removes it, restricted to ASCII. */
  predicate IsSpace(c: char) {
    c == ' ' || ('\t' <= c <= '\r') || ('\U{1C}' <= c <= '\U{1F}')
  }

  /** The characters of `s` for which `keep` holds, in their original order:
      a join over a filtering generator. */
  function Filter(s: string, keep: char -> bool): (r: string)
    ensures |r| <= |s|
    ensures forall i :: 0 <= i < |r| ==> keep(r[i])
  {
    if s == [] then []
    else if keep(s[0]) then [s[0]] + Filter(s[1..], keep)
    else Filter(s[1..], keep)
  }

  /** The filter keeps only characters of `s`, each at most as often as it
      occurs there. */
  lemma {:induction false} FilterSubMultiset(s: string, keep: char -> bool)
    ensures multiset(Filter(s, keep)) <= multiset(s)
  {
    if s != [] {
      var rest := Filter(s[1..], keep);
      FilterSubMultiset(s[1..], keep);
      assert multiset(s) == multiset{s[0]} + multiset(s[1..]) by {
        assert s == [s[0]] + s[1..];
      }
      if keep(s[0]) {
        assert Filter(s, keep) == [s[0]] + rest;
        assert multiset([s[0]] + rest) == multiset{s[0]} + multiset(rest);
      } else {
        assert Filter(s, keep) == rest;
      }
    }
  }

  /** The filter drops no character that passes. */
  lemma {:induction false} FilterKeepsPassing(s: string, keep: char -> bool)
    ensures forall i :: 0 <= i < |s| && keep(s[i]) ==> s[i] in Filter(s, keep)
  {
    if s != [] {
      FilterKeepsPassing(s[1..], keep);
      forall i | 1 <= i < |s| && keep(s[i]) ensures s[i] in Filter(s, keep) {
        assert s[1..][i - 1] == s[i];
      }
    }
  }

  lemma {:induction false} FilterAppend(a: string, b: string, keep: char -> bool)
    ensures Filter(a + b, keep) == Filter(a, keep) + Filter(b, keep)
  {
    if a == [] {
      assert a + b == b;
    } else {
      assert (a + b)[1..] == a[1..] + b;
      FilterAppend(a[1..], b, keep);
    }
  }

  lemma {:induction false} FilterKeepsAll(s: string, keep: char -> bool)
    requires forall i :: 0 <= i < |s| ==> keep(s[i])
    ensures Filter(s, keep) == s
  {
    if s != [] {
      FilterKeepsAll(s[1..], keep);
    }
  }

  lemma {:induction false} FilterDropsAll(s: string, keep: char -> bool)
    requires forall i :: 0 <= i < |s| ==> !keep(s[i])
    ensures Filter(s, keep) == []
  {
    if s != [] {
      FilterDropsAll(s[1..], keep);
    }
  }

  /** Two filters that agree on every character of `s` select the same characters. */
  lemma {:induction false} FilterAgree(s: string, p: char -> bool, q: char -> bool)
    requires forall i :: 0 <= i < |s| ==> p(s[i]) == q(s[i])
    ensures Filter(s, p) == Filter(s, q)
  {
    if s != [] {
      FilterAgree(s[1..], p, q);
    }
  }

  /** `s` cut into consecutive two-character groups joined with ':'
      (the last group has one character when |s| is odd). */
  function JoinPairs(s: string): (r: string)
    ensures |r| == if s == [] then 0 else |s| + (|s| - 1) / 2
  {
    if |s| <= 2 then s else s[..2] + ":" + JoinPairs(s[2..])
  }

  /** Position k of the joined string is a separator when k % 3 == 2, and
      otherwise the digit of `s` that the grouping moves there. */
  lemma {:induction false} JoinPairsAt(s: string, k: nat)
    requires k < |JoinPairs(s)|
    ensures JoinPairs(s)[k] == if k % 3 == 2 then ':' else s[k - k / 3]
  {
    if |s| > 2 {
      var rest := JoinPairs(s[2..]);
      assert JoinPairs(s) == s[..2] + ":" + rest;
      if k >= 3 {
        JoinPairsAt(s[2..], k - 3);
      }
    }
  }

  /** Joining inserts only separators: a filter that drops ':' sees the same
      characters before and after. */
  lemma {:induction false} FilterJoinPairs(s: string, keep: char -> bool)
    requires !keep(':')
    ensures Filter(JoinPairs(s), keep) == Filter(s, keep)
  {
    if |s| > 2 {
      FilterAppend(s[..2] + ":", JoinPairs(s[2..]), keep);
      FilterAppend(s[..2], ":", keep);
      FilterJoinPairs(s[2..], keep);
      assert s == s[..2] + s[2..];
      FilterAppend(s[..2], s[2..], keep);
    }
  }

  /** The shape of a normalised MAC: 17 characters, ':' at positions 2, 5, 8,
      11 and 14, a hexadecimal digit (of either case) everywhere else. */
  predicate IsCanonical(m: string) {
    |m| == 17 &&
    forall k :: 0 <= k < 17 ==> if k % 3 == 2 then m[k] == ':' else IsHexDigit(m[k])
  }

  /** The outcome of format_mac: the formatted address, or the ValueError it
      raises, which names the offending address. */
  datatype MacResult = Ok(mac: string) | LengthError(address: string)

  /** format_mac: keep the hexadecimal digits; fail unless exactly twelve
      remain; otherwise group them in pairs joined by ':'. */
  function FormatMac(address: string): (r: MacResult)
    ensures r.Ok? <==> |Filter(address, IsHexDigit)| == 12
    ensures r.LengthError? ==> r.address == address
  {
    var cleaned := Filter(address, IsHexDigit);
    if |cleaned| != 12 then LengthError(address) else Ok(JoinPairs(cleaned))
  }

  /** What format_mac returns has the canonical shape, and deleting its
      separators gives back the input's hexadecimal digits, in their order
      and their case. */
  lemma FormatMacOutput(address: string)
    requires FormatMac(address).Ok?
    ensures IsCanonical(FormatMac(address).mac)
    ensures Filter(FormatMac(address).mac, NotColon) == Filter(address, IsHexDigit)
  {
    var cleaned := Filter(address, IsHexDigit);
    var m := JoinPairs(cleaned);
    forall k | 0 <= k < 17
      ensures if k % 3 == 2 then m[k] == ':' else IsHexDigit(m[k])
    {
      JoinPairsAt(cleaned, k);
    }
    FilterJoinPairs(cleaned, NotColon);
    FilterKeepsAll(cleaned, NotColon);
  }

  /** Every string of the canonical shape is left as it is by format_mac, so
      the strings format_mac produces are exactly the canonical ones. */
  lemma CanonicalIsFixedPoint(m: string)
    requires IsCanonical(m)
    ensures FormatMac(m) == Ok(m)
  {
    var digits := seq(12, j requires 0 <= j < 12 => m[j + j / 2]);
    assert forall j :: 0 <= j < 12 ==> IsHexDigit(digits[j]) by {
      forall j | 0 <= j < 12 ensures IsHexDigit(digits[j]) {
        assert (j + j / 2) % 3 != 2;
      }
    }
    var joined := JoinPairs(digits);
    forall k | 0 <= k < 17 ensures joined[k] == m[k] {
      JoinPairsAt(digits, k);
      if k % 3 != 2 {
        var j := k - k / 3;
        assert j + j / 2 == k;
      }
    }
    assert joined == m;
    FilterJoinPairs(digits, IsHexDigit);
    FilterKeepsAll(digits, IsHexDigit);
  }

  /** format_mac is idempotent: formatting its own output succeeds and gives
      back the same string. */
  lemma FormatMacIdempotent(address: string)
    requires FormatMac(address).Ok?
    ensures FormatMac(FormatMac(address).mac) == FormatMac(address)
  {
    FormatMacOutput(address);
    CanonicalIsFixedPoint(FormatMac(address).mac);
  }

  /** Two strings of equal length that hold the same character wherever either
      of them holds a kept one have the same filtered characters. */
  lemma {:induction false} FilterSameKept(a: string, b: string, keep: char -> bool)
    requires |a| == |b|
    requires forall i :: 0 <= i < |a| && (keep(a[i]) || keep(b[i])) ==> a[i] == b[i]
    ensures Filter(a, keep) == Filter(b, keep)
  {
    if a != [] {
      FilterSameKept(a[1..], b[1..], keep);
    }
  }

  /** A canonical address written with another separator in place of ':'. */
  function WithSeparator(m: string, sep: char): (r: string)
    requires |m| == 17
    ensures |r| == 17
  {
    seq(17, k requires 0 <= k < 17 => if k % 3 == 2 then sep else m[k])
  }

  /** Separators are irrelevant and case is kept: whatever non-hexadecimal
      character separates the six groups, format_mac returns the digits as
      they were, joined by ':'. */
  lemma FormatMacIgnoresSeparator(m: string, sep: char)
    requires IsCanonical(m) && !IsHexDigit(sep)
    ensures FormatMac(WithSeparator(m, sep)) == Ok(m)
  {
    FilterSameKept(WithSeparator(m, sep), m, IsHexDigit);
    CanonicalIsFixedPoint(m);
  }

  /** The dashed form of an upper-case address keeps its upper case. */
  lemma FormatMacKeepsCase()
    ensures FormatMac("AA-BB-CC-DD-EE-FF") == Ok("AA:BB:CC:DD:EE:FF")
  {
    var m := "AA:BB:CC:DD:EE:FF";
    assert IsCanonical(m);
    var dashed := WithSeparator(m, '-');
    assert dashed == "AA-BB-CC-DD-EE-FF" by {
      forall k | 0 <= k < 17 ensures dashed[k] == "AA-BB-CC-DD-EE-FF"[k] {
      }
    }
    FormatMacIgnoresSeparator(m, '-');
  }

  /** Four digits are too few. */
  lemma FormatMacRejectsShort()
    ensures FormatMac("1234") == LengthError("1234")
  {
    assert |Filter("1234", IsHexDigit)| <= 4;
  }

  /** Leading whitespace removed (str.lstrip); StripLeadingSpec states what
      is left. */
  function StripLeading(s: string): (r: string) {
    if s != [] && IsSpace(s[0]) then StripLeading(s[1..]) else s
  }

  /** Trailing whitespace removed (str.rstrip); StripTrailingSpec states what
      is left. */
  function StripTrailing(s: string): (r: string) {
    if s != [] && IsSpace(s[|s| - 1]) then StripTrailing(s[..|s| - 1]) else s
  }

  /** str.strip(): the line without its surrounding whitespace; StripSpec
      states what is left. */
  function Strip(s: string): (r: string) {
    StripTrailing(StripLeading(s))
  }

  /** lstrip removes a run of whitespace from the front and stops at the
      first other character. */
  lemma {:induction false} StripLeadingSpec(s: string)
    ensures |StripLeading(s)| <= |s|
    ensures StripLeading(s) == s[|s| - |StripLeading(s)|..]
    ensures StripLeading(s) != [] ==> !IsSpace(StripLeading(s)[0])
    ensures forall i :: 0 <= i < |s| - |StripLeading(s)| ==> IsSpace(s[i])
  {
    if s != [] && IsSpace(s[0]) {
      var t := s[1..];
      StripLeadingSpec(t);
      var r := StripLeading(t);
      assert StripLeading(s) == r;
      assert s[|s| - |r|..] == t[|t| - |r|..];
      forall i | 0 <= i < |s| - |r| ensures IsSpace(s[i]) {
        if i > 0 {
          assert s[i] == t[i - 1];
        }
      }
    }
  }

  /** rstrip removes a run of whitespace from the back and stops at the last
      other character. */
  lemma {:induction false} StripTrailingSpec(s: string)
    ensures |StripTrailing(s)| <= |s|
    ensures StripTrailing(s) == s[..|StripTrailing(s)|]
    ensures StripTrailing(s) != [] ==> !IsSpace(StripTrailing(s)[|StripTrailing(s)| - 1])
    ensures forall i :: |StripTrailing(s)| <= i < |s| ==> IsSpace(s[i])
  {
    if s != [] && IsSpace(s[|s| - 1]) {
      var t := s[..|s| - 1];
      StripTrailingSpec(t);
      var r := StripTrailing(t);
      assert StripTrailing(s) == r;
      assert s[..|r|] == t[..|r|];
      forall i | |r| <= i < |s| ensures IsSpace(s[i]) {
        if i < |s| - 1 {
          assert s[i] == t[i];
        }
      }
    }
  }

  /** Everything before position i and from position j on is whitespace. */
  predicate CutAtSpace(s: string, i: int, j: int) {
    0 <= i <= j <= |s| &&
    (forall k :: 0 <= k < i ==> IsSpace(s[k])) &&
    (forall k :: j <= k < |s| ==> IsSpace(s[k]))
  }

  /** strip keeps the part of the line between what lstrip and rstrip cut. */
  lemma StripIsSlice(s: string)
    ensures |StripLeading(s)| <= |s|
    ensures |s| - |StripLeading(s)| + |Strip(s)| <= |s|
    ensures Strip(s) == s[|s| - |StripLeading(s)|..|s| - |StripLeading(s)| + |Strip(s)|]
    ensures CutAtSpace(s, |s| - |StripLeading(s)|, |s| - |StripLeading(s)| + |Strip(s)|)
  {
    var x := StripLeading(s);
    var y := StripTrailing(x);
    StripLeadingSpec(s);
    StripTrailingSpec(x);
    var i := |s| - |x|;
    var j := i + |y|;
    forall k | 0 <= k < |y| ensures y[k] == s[i..j][k] {
      assert y[k] == x[k] && x[k] == s[i + k];
    }
    forall k | j <= k < |s| ensures IsSpace(s[k]) {
      assert s[k] == x[k - i];
    }
  }

  /** strip returns a slice of the line that neither starts nor ends with
      whitespace, and everything it cut off is whitespace. */
  lemma StripSpec(s: string)
    ensures exists i, j :: CutAtSpace(s, i, j) && Strip(s) == s[i..j]
    ensures Strip(s) != [] ==> !IsSpace(Strip(s)[0]) && !IsSpace(Strip(s)[|Strip(s)| - 1])
  {
    var x := StripLeading(s);
    StripIsSlice(s);
    StripLeadingSpec(s);
    StripTrailingSpec(x);
    var i := |s| - |x|;
    var j := i + |Strip(s)|;
    assert CutAtSpace(s, i, j) && Strip(s) == s[i..j];
    if Strip(s) != [] {
      assert Strip(s)[0] == x[0];
    }
  }

  lemma {:induction false} StripLeadingKeepsHexDigits(s: string)
    ensures Filter(StripLeading(s), IsHexDigit) == Filter(s, IsHexDigit)
  {
    if s != [] && IsSpace(s[0]) {
      StripLeadingKeepsHexDigits(s[1..]);
    }
  }

  lemma {:induction false} StripTrailingKeepsHexDigits(s: string)
    ensures Filter(StripTrailing(s), IsHexDigit) == Filter(s, IsHexDigit)
    decreases |s|
  {
    if s != [] && IsSpace(s[|s| - 1]) {
      var init := s[..|s| - 1];
      assert s == init + [s[|s| - 1]];
      FilterAppend(init, [s[|s| - 1]], IsHexDigit);
      StripTrailingKeepsHexDigits(init);
    }
  }

  /** No whitespace character is a hexadecimal digit, so stripping never
      changes what format_mac keeps. */
  lemma StripKeepsHexDigits(s: string)
    ensures Filter(Strip(s), IsHexDigit) == Filter(s, IsHexDigit)
  {
    StripLeadingKeepsHexDigits(s);
    StripTrailingKeepsHexDigits(StripLeading(s));
  }

  // ---------------------------------------------------------------------
  // The cleaning step as written calls str.isdigit, which also holds of
  // digits outside ASCII. The predicate below lists three of them
  // (superscript one, two and three); that subset is enough to exhibit the
  // discrepancy.

  predicate IsDigitAsWritten(c: char) {
    ('0' <= c <= '9') || c == '\U{B9}' || c == '\U{B2}' || c == '\U{B3}'
  }

  /** `c.isdigit() or c.lower() in 'abcdef'` */
  predicate KeptAsWritten(c: char) {
    IsDigitAsWritten(c) || ('a' <= c <= 'f') || ('A' <= c <= 'F')
  }

  /** format_mac with its filter as written. */
  function FormatMacAsWritten(address: string): (r: MacResult)
    ensures r.Ok? <==> |Filter(address, KeptAsWritten)| == 12
    ensures r.LengthError? ==> r.address == address
  {
    var cleaned := Filter(address, KeptAsWritten);
    if |cleaned| != 12 then LengthError(address) else Ok(JoinPairs(cleaned))
  }

  /** On ASCII input the filter as written and the ASCII filter agree. */
  lemma AsWrittenAgreesOnAscii(address: string)
    requires forall i :: 0 <= i < |address| ==> address[i] < '\U{80}'
    ensures FormatMacAsWritten(address) == FormatMac(address)
  {
    FilterAgree(address, KeptAsWritten, IsHexDigit);
  }

  /** Ten hexadecimal digits followed by superscript two and three pass the
      filter as written, and the result is not a MAC address; the ASCII filter
      rejects the same line. */
  lemma AsWrittenAcceptsSuperscripts(digits: string)
    requires |digits| == 10
    requires forall i :: 0 <= i < 10 ==> IsHexDigit(digits[i])
    ensures FormatMacAsWritten(digits + "\U{B2}\U{B3}").Ok?
    ensures !IsCanonical(FormatMacAsWritten(digits + "\U{B2}\U{B3}").mac)
    ensures FormatMac(digits + "\U{B2}\U{B3}").LengthError?
  {
    var tail := "\U{B2}\U{B3}";
    var s := digits + tail;
    FilterKeepsAll(s, KeptAsWritten);
    JoinPairsAt(s, 16);
    assert JoinPairs(s)[16] == s[11] == '\U{B3}';
    FilterAppend(digits, tail, IsHexDigit);
    FilterKeepsAll(digits, IsHexDigit);
    FilterDropsAll(tail, IsHexDigit);
  }

  /** The concrete line "AABBCCDDEE" followed by superscript two and three. */
  lemma AsWrittenExample()
    ensures FormatMacAsWritten("AABBCCDDEE\U{B2}\U{B3}").Ok?
    ensures !IsCanonical(FormatMacAsWritten("AABBCCDDEE\U{B2}\U{B3}").mac)
    ensures FormatMac("AABBCCDDEE\U{B2}\U{B3}").LengthError?
  {
    assert "AABBCCDDEE" + "\U{B2}\U{B3}" == "AABBCCDDEE\U{B2}\U{B3}";
    AsWrittenAcceptsSuperscripts("AABBCCDDEE");
  }
}
