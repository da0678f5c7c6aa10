/** ATA strings: each pair of bytes swapped, padded with spaces. */
module AtaStrings {
  import opened Bytes

  // Length of the white space character a UTF-8 string starts with, 0 if it starts with none:
  // the code points Go's unicode.IsSpace accepts, in their encoded form.
  function SpacePrefix(s: seq<byte>): (n: nat)
    ensures n <= |s|
  {
    if |s| >= 1 && (0x09 <= s[0] <= 0x0d || s[0] == 0x20) then 1
    else if |s| >= 2 && s[0] == 0xc2 && s[1] in {0x85, 0xa0} then 2
    else if |s| >= 3 && IsWideSpace(s[..3]) then 3
    else 0
  }

  function SpaceSuffix(s: seq<byte>): (n: nat)
    ensures n <= |s|
  {
    var e := |s|;
    if e >= 1 && (0x09 <= s[e - 1] <= 0x0d || s[e - 1] == 0x20) then 1
    else if e >= 2 && s[e - 2] == 0xc2 && s[e - 1] in {0x85, 0xa0} then 2
    else if e >= 3 && IsWideSpace(s[e - 3..]) then 3
    else 0
  }

  predicate IsWideSpace(c: seq<byte>)
    requires |c| == 3
  {
    || c == [0xe1, 0x9a, 0x80]
    || (c[0] == 0xe2 && c[1] == 0x80 && (0x80 <= c[2] <= 0x8a || c[2] in {0xa8, 0xa9, 0xaf}))
    || c == [0xe2, 0x81, 0x9f]
    || c == [0xe3, 0x80, 0x80]
  }

  // The code points with Unicode's White_Space property in the Latin-1 range or above it.
  predicate IsSpace(c: nat) {
    || 0x09 <= c <= 0x0d || c == 0x20 || c == 0x85 || c == 0xa0 || c == 0x1680 || 0x2000 <= c <= 0x200a
    || c == 0x2028 || c == 0x2029 || c == 0x202f || c == 0x205f || c == 0x3000
  }

  // The UTF-8 form of a code point below 10000h.
  function Utf8(c: nat): (s: seq<byte>)
    requires c < 0x1_0000
  {
    if c < 0x80 then [c]
    else if c < 0x800 then [0xc0 + c / 0x40, 0x80 + c % 0x40]
    else [0xe0 + c / 0x1000, 0x80 + c / 0x40 % 0x40, 0x80 + c % 0x40]
  }

  lemma Utf8OfSpace(c: nat)
    requires IsSpace(c)
    ensures var e := Utf8(c);
            || (|e| == 1 && (0x09 <= e[0] <= 0x0d || e[0] == 0x20))
            || (|e| == 2 && e[0] == 0xc2 && e[1] in {0x85, 0xa0})
            || (|e| == 3 && IsWideSpace(e) && e[2] >= 0x80 && e[1] != 0xc2)
  {
  }

  lemma DecodeSpace(e: seq<byte>) returns (c: nat)
    requires || (|e| == 1 && (0x09 <= e[0] <= 0x0d || e[0] == 0x20))
             || (|e| == 2 && e[0] == 0xc2 && e[1] in {0x85, 0xa0})
             || (|e| == 3 && IsWideSpace(e))
    ensures IsSpace(c) && Utf8(c) == e
  {
    if |e| == 1 {
      c := e[0];
    } else if |e| == 2 {
      c := e[1];
    } else {
      var first: int, second: int, third: int := e[0] - 0xe0, e[1] - 0x80, e[2] - 0x80;
      c := first * 0x1000 + second * 0x40 + third;
    }
  }

  // The two tests see exactly the encoded spaces at either end.
  lemma SpacePrefixMeaning(s: seq<byte>, c: nat)
    requires IsSpace(c) && Utf8(c) <= s
    ensures SpacePrefix(s) == |Utf8(c)|
  {
    Utf8OfSpace(c);
    hide Utf8, IsSpace;
    if |Utf8(c)| == 3 {
      assert s[..3] == Utf8(c);
    }
  }

  lemma SpacePrefixIsSpace(s: seq<byte>) returns (c: nat)
    requires SpacePrefix(s) > 0
    ensures IsSpace(c) && Utf8(c) == s[..SpacePrefix(s)]
  {
    hide Utf8, IsSpace;
    c := DecodeSpace(s[..SpacePrefix(s)]);
  }

  lemma SpaceSuffixMeaning(s: seq<byte>, c: nat, front: seq<byte>)
    requires IsSpace(c) && s == front + Utf8(c)
    ensures SpaceSuffix(s) == |Utf8(c)|
  {
    Utf8OfSpace(c);
    hide Utf8, IsSpace;
    if |Utf8(c)| == 3 {
      assert s[|s| - 3..] == Utf8(c);
    }
  }

  lemma SpaceSuffixIsSpace(s: seq<byte>) returns (c: nat)
    requires SpaceSuffix(s) > 0
    ensures IsSpace(c) && Utf8(c) == s[|s| - SpaceSuffix(s)..]
  {
    hide Utf8, IsSpace;
    c := DecodeSpace(s[|s| - SpaceSuffix(s)..]);
  }

  function TrimLeft(s: seq<byte>): seq<byte>
    decreases |s|
  {
    if SpacePrefix(s) == 0 then s else TrimLeft(s[SpacePrefix(s)..])
  }

  function TrimRight(s: seq<byte>): seq<byte>
    decreases |s|
  {
    if SpaceSuffix(s) == 0 then s else TrimRight(s[..|s| - SpaceSuffix(s)])
  }

  function TrimSpace(s: seq<byte>): seq<byte> {
    TrimRight(TrimLeft(s))
  }

  // Position k of a pair-swapped buffer comes from the other half of its pair.
  function Partner(k: nat): nat {
    if k % 2 == 0 then k + 1 else k - 1
  }

  function Swapped(s: seq<byte>): (r: seq<byte>)
    requires |s| % 2 == 0
    ensures |r| == |s|
  {
    seq(|s|, k requires 0 <= k < |s| => s[Partner(k)])
  }

  // The source indexes in[i+1], so it demands an even length; its callers pass 8, 20 and 40.
  method FromAtaString(input: seq<byte>) returns (text: seq<byte>)
    requires |input| % 2 == 0
    ensures text == TrimSpace(Swapped(input))
  {
    var swapped := new byte[|input|];
    var i := 0;
    while i < |input|
      invariant 0 <= i <= |input| && i % 2 == 0
      invariant forall k :: 0 <= k < i ==> swapped[k] == input[Partner(k)]
    {
      swapped[i], swapped[i + 1] := input[i + 1], input[i];
      i := i + 2;
    }
    assert swapped[..] == Swapped(input);
    text := TrimSpace(swapped[..]);
  }

  // What a drive stores for a text of even length: of each two characters the second first.
  function Stored(text: seq<byte>): (s: seq<byte>)
    requires |text| % 2 == 0
    ensures |s| == |text|
  {
    if text == [] then [] else [text[1], text[0]] + Stored(text[2..])
  }

  lemma SwappedPair(s: seq<byte>, j: nat)
    requires |s| % 2 == 0 && 2 * j + 1 < |s|
    ensures Swapped(s)[2 * j] == s[2 * j + 1] && Swapped(s)[2 * j + 1] == s[2 * j]
  {
  }

  lemma {:induction false} StoredPair(text: seq<byte>, j: nat)
    requires |text| % 2 == 0 && 2 * j + 1 < |text|
    ensures Stored(text)[2 * j] == text[2 * j + 1] && Stored(text)[2 * j + 1] == text[2 * j]
  {
    if j > 0 {
      StoredPair(text[2..], j - 1);
    }
  }

  // The swap undoes the drive's storage order.
  lemma SwapReadsStored(text: seq<byte>)
    requires |text| % 2 == 0
    ensures Swapped(Stored(text)) == text
  {
    hide Swapped, Stored;
    forall k | 0 <= k < |text|
      ensures Swapped(Stored(text))[k] == text[k]
    {
      assert k == 2 * (k / 2) || k == 2 * (k / 2) + 1;
      StoredPair(text, k / 2);
      SwappedPair(Stored(text), k / 2);
    }
  }

  lemma SwapIsAnInvolution(s: seq<byte>)
    requires |s| % 2 == 0
    ensures Swapped(Swapped(s)) == s && Swapped(s) == Stored(s)
  {
    hide Swapped, Stored;
    forall k | 0 <= k < |s|
      ensures Swapped(Swapped(s))[k] == s[k] && Swapped(s)[k] == Stored(s)[k]
    {
      assert k == 2 * (k / 2) || k == 2 * (k / 2) + 1;
      SwappedPair(s, k / 2);
      SwappedPair(Swapped(s), k / 2);
      StoredPair(s, k / 2);
    }
  }

  function Spaces(n: nat): seq<byte> {
    seq(n, _ => 0x20)
  }

  // A field holding a text: the text padded with spaces, as the drive stores it.
  function ToAtaString(text: seq<byte>, padding: nat): (s: seq<byte>)
    requires (|text| + padding) % 2 == 0
    ensures |s| == |text| + padding
  {
    Stored(text + Spaces(padding))
  }

  lemma {:induction false} TrimRightDropsSpaces(text: seq<byte>, padding: nat)
    ensures TrimRight(text + Spaces(padding)) == TrimRight(text)
  {
    if padding == 0 {
      assert text + Spaces(0) == text;
    } else {
      var s := text + Spaces(padding);
      assert s[..|s| - 1] == text + Spaces(padding - 1);
      TrimRightDropsSpaces(text, padding - 1);
    }
  }

  lemma {:induction false} TrimLeftOfSpaces(n: nat)
    ensures TrimLeft(Spaces(n)) == []
  {
    if n > 0 {
      assert Spaces(n)[1..] == Spaces(n - 1);
      TrimLeftOfSpaces(n - 1);
    }
  }

  lemma {:induction false} TrimLeftLeavesNoPrefix(s: seq<byte>)
    ensures SpacePrefix(TrimLeft(s)) == 0
    ensures |TrimLeft(s)| == |s| ==> SpacePrefix(s) == 0
    ensures |TrimLeft(s)| <= |s|
    decreases |s|
  {
    if SpacePrefix(s) != 0 {
      TrimLeftLeavesNoPrefix(s[SpacePrefix(s)..]);
    }
  }

  lemma {:induction false} TrimRightLeavesNoSuffix(s: seq<byte>)
    ensures SpaceSuffix(TrimRight(s)) == 0
    ensures |TrimRight(s)| == |s| ==> SpaceSuffix(s) == 0
    ensures TrimRight(s) <= s
    decreases |s|
  {
    if SpaceSuffix(s) != 0 {
      TrimRightLeavesNoSuffix(s[..|s| - SpaceSuffix(s)]);
    }
  }

  // Pad, swap, read back: the text returns exactly when it has no outer white space.
  lemma AtaStringRoundTrip(text: seq<byte>, padding: nat)
    requires (|text| + padding) % 2 == 0
    ensures TrimSpace(Swapped(ToAtaString(text, padding))) == text <==>
              SpacePrefix(text) == 0 && SpaceSuffix(text) == 0
  {
    var padded := text + Spaces(padding);
    SwapReadsStored(padded);
    if text == [] {
      assert padded == Spaces(padding);
      TrimLeftOfSpaces(padding);
    } else {
      PrefixOfPadded(text, padding);
      if SpacePrefix(text) == 0 {
        TrimRightDropsSpaces(text, padding);
        TrimRightLeavesNoSuffix(text);
      } else {
        TrimLeftLeavesNoPrefix(padded);
        TrimRightLeavesNoSuffix(TrimLeft(padded));
        TrimmedHasNoPrefix(TrimLeft(padded));
      }
    }
  }

  predicate IsAsciiSpace(b: byte) {
    b in {0x09, 0x0a, 0x0b, 0x0c, 0x0d, 0x20}
  }

  // For ASCII that means: no blank, tab or line break at either end.
  lemma AsciiRoundTrip(text: seq<byte>, padding: nat)
    requires (|text| + padding) % 2 == 0 && forall i :: 0 <= i < |text| ==> text[i] < 0x80
    ensures TrimSpace(Swapped(ToAtaString(text, padding))) == text <==>
              text == [] || (!IsAsciiSpace(text[0]) && !IsAsciiSpace(text[|text| - 1]))
  {
    AtaStringRoundTrip(text, padding);
    if text != [] {
      AsciiPrefix(text);
      AsciiSuffix(text);
    }
    hide SpacePrefix, SpaceSuffix, TrimSpace, Swapped, Stored, IsAsciiSpace;
    assert SpacePrefix(text) == 0 && SpaceSuffix(text) == 0 <==>
      text == [] || (!IsAsciiSpace(text[0]) && !IsAsciiSpace(text[|text| - 1])) by { NoSpaceInNothing(); }
  }

  lemma NoSpaceInNothing()
    ensures SpacePrefix([]) == 0 && SpaceSuffix([]) == 0
  {
  }

  lemma AsciiPrefix(text: seq<byte>)
    requires text != [] && text[0] < 0x80
    ensures SpacePrefix(text) == 0 <==> !IsAsciiSpace(text[0])
  {
  }

  lemma AsciiSuffix(text: seq<byte>)
    requires text != [] && text[|text| - 1] < 0x80
    ensures SpaceSuffix(text) == 0 <==> !IsAsciiSpace(text[|text| - 1])
  {
    if |text| >= 3 {
      assert text[|text| - 3..][2] == text[|text| - 1];
    }
  }

  lemma PrefixOfPadded(text: seq<byte>, padding: nat)
    requires text != []
    ensures SpacePrefix(text + Spaces(padding)) == SpacePrefix(text)
  {
    var s := text + Spaces(padding);
    if |text| >= 3 {
      assert s[..3] == text[..3];
    } else if |s| >= 3 {
      assert s[..3][2] == 0x20;
      assert s[..3][0] == text[0] && (|text| == 1 ==> s[..3][1] == 0x20);
    }
  }

  lemma TrimmedHasNoPrefix(s: seq<byte>)
    requires SpacePrefix(s) == 0
    ensures SpacePrefix(TrimRight(s)) == 0
  {
    TrimRightLeavesNoSuffix(s);
    var t := TrimRight(s);
    if |t| >= 3 {
      assert t[..3] == s[..3];
    }
  }
}
