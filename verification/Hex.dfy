/** Hexadecimal text as vold reads, writes and normalises it. */
module Hex {
  import opened Common

  const OK := 0
  const EINVAL := 22

  predicate IsSeparator(c: char) {
    c == ' ' || c == '-' || c == ':'
  }

  function DigitOf(c: char): (d: Option<nat>)
    ensures d.Some? ==> d.value < 16
  {
    if '0' <= c <= '9' then Some((c - '0') as nat)
    else if 'a' <= c <= 'f' then Some(10 + (c - 'a') as nat)
    else if 'A' <= c <= 'F' then Some(10 + (c - 'A') as nat)
    else None
  }

  const LOOKUP := "0123456789abcdef"

  // ----- Meaning -------------------------------------------------------------------------------

  /** The digits of a text, without its separators, if there is nothing else in it. */
  function Nibbles(hex: string): (ns: Option<seq<nat>>)
    ensures ns.Some? ==> forall i :: 0 <= i < |ns.value| ==> ns.value[i] < 16
  {
    if hex == "" then Some([])
    else
      var c := hex[|hex| - 1];
      match Nibbles(hex[..|hex| - 1])
      case None => None
      case Some(ns) =>
        if IsSeparator(c) then Some(ns)
        else if DigitOf(c).Some? then Some(ns + [DigitOf(c).value])
        else None
  }

  function PairUp(ns: seq<nat>): (bytes: seq<byte>)
    requires forall i :: 0 <= i < |ns| ==> ns[i] < 16
    ensures |bytes| == |ns| / 2
  {
    seq(|ns| / 2, k requires 0 <= k < |ns| / 2 => (16 * ns[2 * k] + ns[2 * k + 1]) as byte)
  }

  /** The bytes that a text stands for. */
  function Decode(hex: string): Option<seq<byte>> {
    match Nibbles(hex)
    case None => None
    case Some(ns) => if |ns| % 2 == 0 then Some(PairUp(ns)) else None
  }

  function HighNibble(b: byte): nat {
    b as nat / 16
  }

  function LowNibble(b: byte): nat {
    b as nat % 16
  }

  function Encode(bytes: seq<byte>): (hex: string)
    ensures |hex| == 2 * |bytes|
  {
    if bytes == [] then ""
    else
      var b := bytes[|bytes| - 1];
      Encode(bytes[..|bytes| - 1]) + [LOOKUP[HighNibble(b)], LOOKUP[LowNibble(b)]]
  }

  function Normalize(hex: string): Option<string> {
    match Decode(hex)
    case None => None
    case Some(bytes) => Some(Encode(bytes))
  }

  // ----- The loops -----------------------------------------------------------------------------

  method HexToStr(hex: string) returns (status: int, str: seq<byte>)
    ensures status == OK || status == -EINVAL
    ensures status == OK <==> Decode(hex).Some?
    ensures status == OK ==> Decode(hex) == Some(str)
  {
    hide Nibbles, PairUp, DigitOf, IsSeparator;
    NoNibbles();
    str := [];
    var even := true;
    var cur: byte := 0;
    var i := 0;
    while i < |hex|
      invariant i <= |hex|
      invariant Nibbles(hex[..i]).Some?
      invariant even == (|Nibbles(hex[..i]).value| % 2 == 0)
      invariant str == PairUp(Nibbles(hex[..i]).value)
      invariant !even ==> cur as nat == 16 * Nibbles(hex[..i]).value[|Nibbles(hex[..i]).value| - 1]
    {
      NextNibble(hex, i);
      ghost var ns := Nibbles(hex[..i]).value;
      if IsSeparator(hex[i]) {
        i := i + 1;
        continue;
      }
      var d := DigitOf(hex[i]);
      if d.None? {
        InvalidStays(hex, i + 1);
        return -EINVAL, str;
      }
      PairUpNext(ns, d.value);
      if even {
        cur := (16 * d.value) as byte;
      } else {
        cur := cur + d.value as byte;
        str := str + [cur];
        cur := 0;
      }
      even := !even;
      i := i + 1;
    }
    assert hex[..i] == hex;
    return if even then OK else -EINVAL, str;
  }

  lemma NoNibbles()
    ensures Nibbles("") == Some([]) && PairUp([]) == []
  {
  }

  lemma NextNibble(hex: string, i: nat)
    requires i < |hex| && Nibbles(hex[..i]).Some?
    ensures Nibbles(hex[..i + 1])
         == if IsSeparator(hex[i]) then Nibbles(hex[..i])
            else if DigitOf(hex[i]).Some? then Some(Nibbles(hex[..i]).value + [DigitOf(hex[i]).value])
            else None
  {
    assert hex[..i + 1][..i] == hex[..i];
  }

  lemma PairUpNext(ns: seq<nat>, d: nat)
    requires d < 16 && forall i :: 0 <= i < |ns| ==> ns[i] < 16
    ensures |ns| % 2 == 0 ==> PairUp(ns + [d]) == PairUp(ns)
    ensures |ns| % 2 == 1 ==> PairUp(ns + [d]) == PairUp(ns) + [(16 * ns[|ns| - 1] + d) as byte]
  {
  }

  method StrToHex(str: seq<byte>) returns (status: int, hex: string)
    ensures status == OK && hex == Encode(str)
  {
    hex := "";
    var i := 0;
    while i < |str|
      invariant i <= |str|
      invariant hex == Encode(str[..i])
    {
      assert str[..i + 1][..i] == str[..i];
      hex := hex + [LOOKUP[HighNibble(str[i])]];
      hex := hex + [LOOKUP[LowNibble(str[i])]];
      i := i + 1;
    }
    assert str[..i] == str;
    return OK, hex;
  }

  method NormalizeHex(input: string) returns (status: int, output: string)
    ensures status == OK || status == -EINVAL
    ensures status == OK <==> Normalize(input).Some?
    ensures status == OK ==> Normalize(input) == Some(output)
  {
    var tmp;
    status, tmp := HexToStr(input);
    if status != OK {
      return -EINVAL, "";
    }
    status, output := StrToHex(tmp);
  }

  // ----- Properties ----------------------------------------------------------------------------

  /** A bad prefix spoils the text. */
  lemma {:induction false} InvalidStays(hex: string, n: nat)
    requires n <= |hex| && Nibbles(hex[..n]).None?
    ensures Nibbles(hex).None?
  {
    if n == |hex| {
      assert hex[..n] == hex;
    } else {
      assert hex[..|hex| - 1][..n] == hex[..n];
      InvalidStays(hex[..|hex| - 1], n);
    }
  }

  lemma {:induction false} NibblesConcat(a: string, b: string)
    ensures Nibbles(a + b) == match (Nibbles(a), Nibbles(b))
                              case (Some(m), Some(n)) => Some(m + n)
                              case _ => None
  {
    if b == "" {
      assert a + b == a;
      if Nibbles(a).Some? {
        assert Nibbles(a).value + [] == Nibbles(a).value;
      }
    } else {
      var b0, c := b[..|b| - 1], b[|b| - 1];
      NibblesConcat(a, b0);
      assert (a + b)[..|a + b| - 1] == a + b0;
      if Nibbles(a).Some? && Nibbles(b0).Some? && DigitOf(c).Some? {
        assert (Nibbles(a).value + Nibbles(b0).value) + [DigitOf(c).value]
            == Nibbles(a).value + (Nibbles(b0).value + [DigitOf(c).value]);
      }
    }
  }

  lemma NibblesOfChar(c: char)
    ensures Nibbles([c]) == if IsSeparator(c) then Some([])
                            else if DigitOf(c).Some? then Some([DigitOf(c).value])
                            else None
  {
    assert [c][..0] == "";
    assert DigitOf(c).Some? ==> [] + [DigitOf(c).value] == [DigitOf(c).value];
  }

  lemma LookupDigit(n: nat)
    requires n < 16
    ensures Nibbles([LOOKUP[n]]) == Some([n])
  {
    NibblesOfChar(LOOKUP[n]);
  }

  /** The two digits written for a byte. */
  function Digits(bytes: seq<byte>): (ns: seq<nat>)
    ensures |ns| == 2 * |bytes|
    ensures forall i :: 0 <= i < |ns| ==> ns[i] < 16
    ensures forall k :: 0 <= k < |bytes| ==> ns[2 * k] == HighNibble(bytes[k]) && ns[2 * k + 1] == LowNibble(bytes[k])
  {
    if bytes == [] then []
    else Digits(bytes[..|bytes| - 1]) + [HighNibble(bytes[|bytes| - 1]), LowNibble(bytes[|bytes| - 1])]
  }

  lemma {:induction false} NibblesOfEncoded(bytes: seq<byte>)
    ensures Nibbles(Encode(bytes)) == Some(Digits(bytes))
  {
    if bytes != [] {
      hide Nibbles, LOOKUP, HighNibble, LowNibble;
      var init, b := bytes[..|bytes| - 1], bytes[|bytes| - 1];
      var high, low := HighNibble(b), LowNibble(b);
      NibbleRange(b);
      NibblesOfEncoded(init);
      LookupDigit(high);
      LookupDigit(low);
      assert Encode(bytes) == Encode(init) + [LOOKUP[high]] + [LOOKUP[low]];
      NibblesConcat(Encode(init) + [LOOKUP[high]], [LOOKUP[low]]);
      NibblesConcat(Encode(init), [LOOKUP[high]]);
      assert Digits(init) + [high] + [low] == Digits(bytes);
    }
  }

  lemma NibbleRange(b: byte)
    ensures HighNibble(b) < 16 && LowNibble(b) < 16
    ensures 16 * HighNibble(b) + LowNibble(b) == b as nat
  {
  }

  /** HexToStr undoes StrToHex. */
  lemma DecodeEncode(bytes: seq<byte>)
    ensures Decode(Encode(bytes)) == Some(bytes)
  {
    hide HighNibble, LowNibble, Encode, Nibbles, Digits;
    NibblesOfEncoded(bytes);
    var paired := PairUp(Digits(bytes));
    forall k | 0 <= k < |bytes|
      ensures paired[k] == bytes[k]
    {
      NibbleRange(bytes[k]);
      assert Digits(bytes)[2 * k] == HighNibble(bytes[k]) && Digits(bytes)[2 * k + 1] == LowNibble(bytes[k]);
    }
    assert |Digits(bytes)| % 2 == 0 && paired == bytes;
  }

  /** Texts normalise to the same key exactly if they stand for the same bytes. */
  lemma NormalizeEqualIffSameBytes(a: string, b: string)
    requires Decode(a).Some? && Decode(b).Some?
    ensures Normalize(a) == Normalize(b) <==> Decode(a) == Decode(b)
  {
    DecodeEncode(Decode(a).value);
    DecodeEncode(Decode(b).value);
  }

  /** Normalising keeps the bytes, is idempotent, and yields what StrToHex writes for the bytes. */
  lemma NormalizeIsCanonical(hex: string)
    requires Normalize(hex).Some?
    ensures Decode(Normalize(hex).value) == Decode(hex)
    ensures Normalize(Normalize(hex).value) == Normalize(hex)
    ensures Normalize(hex) == Some(hex) <==> exists bytes :: hex == Encode(bytes)
  {
    DecodeEncode(Decode(hex).value);
    if bytes :| hex == Encode(bytes) {
      DecodeEncode(bytes);
    }
  }

  // ----- The alphabets -------------------------------------------------------------------------

  /** A digit is worth its position, in either case. */
  lemma AlphabetDigits(k: nat)
    requires k < 16
    ensures Nibbles(["0123456789abcdef"[k]]) == Some([k])
    ensures Nibbles(["0123456789ABCDEF"[k]]) == Some([k])
  {
    NibblesOfChar("0123456789abcdef"[k]);
    NibblesOfChar("0123456789ABCDEF"[k]);
  }

  predicate Admitted(c: char) {
    c in "0123456789abcdef" || c in "0123456789ABCDEF" || c in " -:"
  }

  lemma AdmittedIff(c: char)
    ensures IsSeparator(c) || DigitOf(c).Some? <==> Admitted(c)
  {
    if DigitOf(c).Some? {
      var d := DigitOf(c).value;
      assert c == "0123456789abcdef"[d] || c == "0123456789ABCDEF"[d];
    }
    if IsSeparator(c) {
      assert c == " -:"[0] || c == " -:"[1] || c == " -:"[2];
    }
  }

  /** A text stands for bytes only if it has nothing but digits of either case, blanks, dashes and colons. */
  lemma {:induction false} NibblesIffAdmitted(hex: string)
    ensures Nibbles(hex).Some? <==> forall i :: 0 <= i < |hex| ==> Admitted(hex[i])
  {
    hide Admitted, IsSeparator, DigitOf;
    if hex != "" {
      NibblesIffAdmitted(hex[..|hex| - 1]);
      AdmittedIff(hex[|hex| - 1]);
    }
  }

  /** Separators may be put in anywhere. */
  lemma SeparatorsIgnored(a: string, c: char, b: string)
    requires c in {' ', '-', ':'}
    ensures Normalize(a + [c] + b) == Normalize(a + b)
  {
    NibblesConcat(a + [c], b);
    NibblesConcat(a, [c]);
    NibblesConcat(a, b);
    assert [c] == "" + [c];
    if Nibbles(a).Some? {
      assert Nibbles(a).value + [] == Nibbles(a).value;
    }
  }

  /** The case of a letter does not matter. */
  lemma CaseIgnored(a: string, k: nat, b: string)
    requires k < 16
    ensures Normalize(a + ["0123456789abcdef"[k]] + b) == Normalize(a + ["0123456789ABCDEF"[k]] + b)
  {
    hide Nibbles;
    var c, d := "0123456789abcdef"[k], "0123456789ABCDEF"[k];
    AlphabetDigits(k);
    NibblesConcat(a + [c], b);
    NibblesConcat(a, [c]);
    NibblesConcat(a + [d], b);
    NibblesConcat(a, [d]);
  }

  /** Two digits of either case, wherever they stand among whole bytes, make the byte of their values. */
  lemma PairDecodes(a: string, i: nat, j: nat, upper: bool)
    requires i < 16 && j < 16 && Decode(a).Some?
    ensures var digits := if upper then "0123456789ABCDEF" else "0123456789abcdef";
      Decode(a + [digits[i]] + [digits[j]]) == Some(Decode(a).value + [(16 * i + j) as byte])
  {
    hide Nibbles;
    var digits := if upper then "0123456789ABCDEF" else "0123456789abcdef";
    AlphabetDigits(i);
    AlphabetDigits(j);
    NibblesConcat(a + [digits[i]], [digits[j]]);
    NibblesConcat(a, [digits[i]]);
    var ns := Nibbles(a).value;
    PairUpNext(ns, i);
    PairUpNext(ns + [i], j);
  }

  /** What is written are lower-case digits, two for each byte, the high one first. */
  lemma {:induction false} EncodedAt(bytes: seq<byte>, k: nat)
    requires k < |bytes|
    ensures Encode(bytes)[2 * k] == "0123456789abcdef"[bytes[k] as nat / 16]
    ensures Encode(bytes)[2 * k + 1] == "0123456789abcdef"[bytes[k] as nat % 16]
  {
    if k < |bytes| - 1 {
      EncodedAt(bytes[..|bytes| - 1], k);
    }
  }

  lemma NotAdmitted(c: char)
    requires 'F' < c < 'a'
    ensures !Admitted(c)
  {
  }

  const AB: seq<byte> := [171]

  lemma DecodedPair()
    ensures Decode("AB") == Some(AB) && |Nibbles("AB").value| == 2
  {
    hide Nibbles;
    NoNibbles();
    var none: seq<byte> := [];
    assert Decode("") == Some(none);
    PairDecodes("", 10, 11, true);
    assert "" + ["0123456789ABCDEF"[10]] + ["0123456789ABCDEF"[11]] == "AB";
    assert none + [(16 * 10 + 11) as byte] == AB;
  }

  lemma EncodedPair()
    ensures Encode(AB) == "ab"
  {
    hide Encode;
    EncodedAt(AB, 0);
    assert Encode(AB)[0] == "0123456789abcdef"[10] == 'a' && Encode(AB)[1] == "0123456789abcdef"[11] == 'b';
  }

  lemma OddDigits()
    ensures Decode("ABC") == None
  {
    hide Nibbles;
    DecodedPair();
    assert ["0123456789ABCDEF"[12]] == "C";
    AlphabetDigits(12);
    NibblesConcat("AB", "C");
    assert "AB" + "C" == "ABC";
  }

  /** So an upper-case GUID with dashes turns into lower case without them. */
  lemma UpperCaseNormalised()
    ensures Normalize("AB") == Some("ab") && Normalize("A-B") == Some("ab")
    ensures Normalize("ABC") == None && Normalize("AG") == None
  {
    hide Nibbles, Encode;
    DecodedPair();
    EncodedPair();
    OddDigits();
    assert "A" + ['-'] + "B" == "A-B" && "A" + "B" == "AB";
    SeparatorsIgnored("A", '-', "B");
    NibblesIffAdmitted("AG");
    NotAdmitted('G');
    assert !Admitted("AG"[1]);
  }
}
