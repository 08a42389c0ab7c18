/**
 * The text <-> DNA codec of app.py (`text_to_dna`, `dna_to_text`). Every character becomes its
 * eight-digit binary code point; the digits are read two at a time, each pair naming one base.
 * Decoding maps each base back to its two digits, cuts the digits into groups of eight (the
 * last group may be shorter) and turns each group into the character with that code point.
 */
module Codec {
  import opened Wrappers
  import opened Binary
  import opened Tables

  /** The KeyError of the dictionary lookup in `dna_to_text`: the first symbol that is not a base. */
  datatype DecodeError = InvalidBase(symbol: char)

  /** Text whose code points all fit in eight bits, the domain on which the codec is defined. */
  predicate IsByteText(text: string) {
    forall i :: 0 <= i < |text| ==> text[i] as int < 256
  }

  // ---------------------------------------------------------------- encoding

  /** `''.join(format(ord(c), '08b') for c in text)` */
  function TextToBinary(text: string): (binary: string)
    requires IsByteText(text)
    ensures |binary| == 8 * |text| && IsBinary(binary)
  {
    if text == [] then "" else Bits(text[0] as int, 8) + TextToBinary(text[1..])
  }

  /** `''.join(binary_to_dna[binary[i:i+2]] for i in range(0, len(binary), 2))` */
  function BinaryToBases(binary: string): (dna: string)
    requires IsBinary(binary) && |binary| % 2 == 0
    ensures |dna| == |binary| / 2 && IsDna(dna)
  {
    if binary == [] then ""
    else
      DnaToBinaryInvertsBinaryToDna();
      assert IsBitPair(binary[..2]);
      [BinaryToDna[binary[..2]]] + BinaryToBases(binary[2..])
  }

  /** `text_to_dna`: four bases per character, all from the alphabet A, T, G, C. */
  function TextToDna(text: string): (dna: string)
    requires IsByteText(text)
    ensures |dna| == 4 * |text| && IsDna(dna)
  {
    BinaryToBases(TextToBinary(text))
  }

  // ---------------------------------------------------------------- decoding

  /** `''.join(dna_to_binary[b] for b in dna_seq)`, failing at the first symbol that is not a base. */
  function BasesToBinary(dna: string): (r: Result<string, DecodeError>)
    ensures r.Success? <==> IsDna(dna)
    ensures r.Success? ==> |r.value| == 2 * |dna| && IsBinary(r.value)
  {
    if dna == [] then Success("")
    else if dna[0] !in DnaToBinary then Failure(InvalidBase(dna[0]))
    else
      var rest :- BasesToBinary(dna[1..]);
      assert dna == [dna[0]] + dna[1..];
      Success(DnaToBinary[dna[0]] + rest)
  }

  /** Groups of one to eight binary digits, the input of `chr(int(c, 2))`. */
  predicate AreByteGroups(groups: seq<string>) {
    forall k :: 0 <= k < |groups| ==> IsBinary(groups[k]) && 0 < |groups[k]| <= 8
  }

  /** `[binary[i:i+8] for i in range(0, len(binary), 8)]`: full groups of eight and a shorter tail. */
  function Groups(binary: string): (groups: seq<string>)
    ensures |groups| == (|binary| + 7) / 8
    ensures IsBinary(binary) ==> AreByteGroups(groups)
  {
    if |binary| <= 8 then
      if binary == [] then [] else [binary]
    else
      [binary[..8]] + Groups(binary[8..])
  }

  /** The k-th group is the slice `binary[8k : 8k+8]`, cut short at the end of the input. */
  lemma {:induction false} GroupsAreSlices(binary: string)
    ensures forall k :: 0 <= k < |Groups(binary)| ==>
      Groups(binary)[k] == binary[8 * k .. if 8 * k + 8 <= |binary| then 8 * k + 8 else |binary|]
  {
    if |binary| > 8 {
      var rest := binary[8..];
      var groups := Groups(binary);
      assert groups == [binary[..8]] + Groups(rest);
      GroupsAreSlices(rest);
      forall k | 1 <= k < |groups|
        ensures groups[k] == binary[8 * k .. if 8 * k + 8 <= |binary| then 8 * k + 8 else |binary|]
      {
        var j := k - 1;
        var e := if 8 * j + 8 <= |rest| then 8 * j + 8 else |rest|;
        assert groups[k] == Groups(rest)[j] == rest[8 * j .. e];
        assert rest[8 * j .. e] == binary[8 + 8 * j .. 8 + e];
      }
    }
  }

  lemma GroupsCons(head: string, rest: string)
    requires |head| == 8
    ensures Groups(head + rest) == [head] + Groups(rest)
  {
    if rest == [] {
      assert head + rest == head;
    } else {
      assert (head + rest)[..8] == head && (head + rest)[8..] == rest;
    }
  }

  /** `chr(int(c, 2))` for one group: a group of one to eight digits names a code point below 256. */
  function GroupToChar(group: string): (c: char)
    requires IsBinary(group) && 0 < |group| <= 8
    ensures c as int < 256 && c as int == Value(group)
  {
    Pow2Monotone(|group|, 8);
    Value(group) as char
  }

  /** `''.join(chr(int(c, 2)) for c in chars)` */
  function GroupsToText(groups: seq<string>): (text: string)
    requires AreByteGroups(groups)
    ensures |text| == |groups| && IsByteText(text)
  {
    seq(|groups|, k requires 0 <= k < |groups| => GroupToChar(groups[k]))
  }

  lemma GroupsToTextCons(head: string, groups: seq<string>)
    requires IsBinary(head) && 0 < |head| <= 8 && AreByteGroups(groups)
    ensures AreByteGroups([head] + groups)
    ensures GroupsToText([head] + groups) == [GroupToChar(head)] + GroupsToText(groups)
  {
    var all := [head] + groups;
    assert forall k :: 1 <= k < |all| ==> all[k] == groups[k - 1];
    var text := GroupsToText(all);
    assert text[0] == GroupToChar(head);
    assert forall k :: 1 <= k < |all| ==> text[k] == GroupsToText(groups)[k - 1];
  }

  /** `dna_to_text` */
  function DnaToText(dna: string): (r: Result<string, DecodeError>)
    ensures r.Success? <==> IsDna(dna)
    ensures r.Success? ==> |r.value| == (|dna| + 3) / 4 && IsByteText(r.value)
  {
    var binary :- BasesToBinary(dna);
    Success(GroupsToText(Groups(binary)))
  }

  // ---------------------------------------------------------------- examples

  /** `format(65, '08b')`, one digit at a time from the right. */
  lemma BitsOfA()
    ensures Bits(65, 8) == "01000001"
  {
    var b1 := Bits(0, 1);
    assert b1 == "0";
    var b2 := Bits(1, 2);
    assert b2 == b1 + ['1'] == "01";
    var b3 := Bits(2, 3);
    assert b3 == b2 + ['0'] == "010";
    var b4 := Bits(4, 4);
    assert b4 == b3 + ['0'] == "0100";
    var b5 := Bits(8, 5);
    assert b5 == b4 + ['0'] == "01000";
    var b6 := Bits(16, 6);
    assert b6 == b5 + ['0'] == "010000";
    var b7 := Bits(32, 7);
    assert b7 == b6 + ['0'] == "0100000";
    assert Bits(65, 8) == b7 + ['1'];
  }

  /** "A" is 01000001, read as the pairs 01 00 00 01. */
  lemma EncodeExample()
    ensures TextToDna("A") == "TAAT"
  {
    BitsOfA();
    assert "A"[0] as int == 65 && "A"[1..] == "";
    assert TextToBinary("A") == Bits(65, 8) + TextToBinary("");
    var b := "01000001";
    assert b[6..] == "01" && b[6..][..2] == "01" && b[6..][2..] == "";
    assert BinaryToBases(b[6..]) == "T";
    assert b[4..] == "0001" && b[4..][..2] == "00" && b[4..][2..] == b[6..];
    assert BinaryToBases(b[4..]) == "AT";
    assert b[2..] == "000001" && b[2..][..2] == "00" && b[2..][2..] == b[4..];
    assert BinaryToBases(b[2..]) == "AAT";
    assert b[..2] == "01";
    assert BinaryToBases(b) == "TAAT";
    assert TextToBinary("A") == b;
  }

  /** A trailing group shorter than four bases is read as a shorter binary number, not rejected. */
  lemma DecodeShortTailExample()
    ensures DnaToText("T") == Success([1 as char])
  {
    assert "T"[0] == 'T' && "T"[1..] == "";
    assert BasesToBinary("") == Success("");
    assert 'T' in DnaToBinary && DnaToBinary['T'] == "01" && "01" + "" == "01";
    assert BasesToBinary("T") == Success(DnaToBinary['T'] + BasesToBinary("T"[1..]).value);
    assert BasesToBinary("T") == Success("01");
    assert Groups("01") == ["01"];
    assert Value("01") == 1 by {
      assert "01"[..1] == "0";
    }
    assert GroupsToText(["01"]) == [GroupToChar("01")];
  }

  /** A symbol outside the alphabet is reported, whatever follows it. */
  lemma DecodeInvalidExample()
    ensures DnaToText("AXGC") == Failure(InvalidBase('X'))
  {
    assert "AXGC"[1..] == "XGC";
  }

  // ---------------------------------------------------------------- decoding errors

  /** Decoding fails exactly when some symbol is not a base, and it names the first such symbol. */
  lemma {:induction false} DecodeFailsAtFirstInvalid(dna: string)
    requires !IsDna(dna)
    ensures exists i :: 0 <= i < |dna| && !IsBase(dna[i]) && IsDna(dna[..i]) &&
                        DnaToText(dna) == Failure(InvalidBase(dna[i]))
  {
    DnaToBinaryInvertsBinaryToDna();
    if IsBase(dna[0]) {
      DecodeFailsAtFirstInvalid(dna[1..]);
      var j :| 0 <= j < |dna[1..]| && !IsBase(dna[1..][j]) && IsDna(dna[1..][..j]) &&
               DnaToText(dna[1..]) == Failure(InvalidBase(dna[1..][j]));
      assert dna[..j + 1] == [dna[0]] + dna[1..][..j];
      assert DnaToText(dna) == Failure(InvalidBase(dna[j + 1]));
    } else {
      assert dna[..0] == [];
    }
  }

  // ---------------------------------------------------------------- structure of the codec

  lemma {:induction false} BinaryToBasesAppend(a: string, b: string)
    requires IsBinary(a) && |a| % 2 == 0 && IsBinary(b) && |b| % 2 == 0
    ensures BinaryToBases(a + b) == BinaryToBases(a) + BinaryToBases(b)
  {
    if a != [] {
      assert (a + b)[..2] == a[..2];
      assert (a + b)[2..] == a[2..] + b;
      BinaryToBasesAppend(a[2..], b);
    } else {
      assert a + b == b;
    }
  }

  /** Each character is encoded on its own: encoding distributes over concatenation. */
  lemma ByteTextAppend(s: string, t: string)
    requires IsByteText(s) && IsByteText(t)
    ensures IsByteText(s + t)
  {
    forall i | 0 <= i < |s + t| ensures (s + t)[i] as int < 256 {
      if i >= |s| { assert (s + t)[i] == t[i - |s|]; }
    }
  }

  lemma {:induction false} TextToDnaAppend(s: string, t: string)
    requires IsByteText(s) && IsByteText(t)
    ensures IsByteText(s + t)
    ensures TextToDna(s + t) == TextToDna(s) + TextToDna(t)
  {
    TextToBinaryAppend(s, t);
    BinaryToBasesAppend(TextToBinary(s), TextToBinary(t));
  }

  lemma {:induction false} TextToBinaryAppend(s: string, t: string)
    requires IsByteText(s) && IsByteText(t)
    ensures IsByteText(s + t)
    ensures TextToBinary(s + t) == TextToBinary(s) + TextToBinary(t)
  {
    ByteTextAppend(s, t);
    if s != [] {
      assert (s + t)[0] == s[0];
      assert (s + t)[1..] == s[1..] + t;
      TextToBinaryAppend(s[1..], t);
    } else {
      assert s + t == t;
    }
  }

  /** Reading bases back as digits undoes `BinaryToBases`. */
  lemma {:induction false} BasesToBinaryOfBinaryToBases(binary: string)
    requires IsBinary(binary) && |binary| % 2 == 0
    ensures BasesToBinary(BinaryToBases(binary)) == Success(binary)
  {
    DnaToBinaryInvertsBinaryToDna();
    if binary != [] {
      var pair := binary[..2];
      assert IsBitPair(pair);
      var dna := BinaryToBases(binary);
      assert dna[0] == BinaryToDna[pair] && dna[1..] == BinaryToBases(binary[2..]);
      BasesToBinaryOfBinaryToBases(binary[2..]);
      assert binary == pair + binary[2..];
    }
  }

  /** Writing digits as bases undoes `BasesToBinary`. */
  lemma {:induction false} BinaryToBasesOfBasesToBinary(dna: string)
    requires IsDna(dna)
    ensures BinaryToBases(BasesToBinary(dna).value) == dna
  {
    DnaToBinaryInvertsBinaryToDna();
    if dna != [] {
      var binary := BasesToBinary(dna).value;
      assert binary == DnaToBinary[dna[0]] + BasesToBinary(dna[1..]).value;
      assert binary[..2] == DnaToBinary[dna[0]];
      assert binary[2..] == BasesToBinary(dna[1..]).value;
      BinaryToBasesOfBasesToBinary(dna[1..]);
      assert dna == [dna[0]] + dna[1..];
    }
  }

  /** Decoding the digits of a text's code points gives the text back. */
  lemma {:induction false} GroupsToTextOfTextToBinary(text: string)
    requires IsByteText(text)
    ensures GroupsToText(Groups(TextToBinary(text))) == text
  {
    if text != [] {
      var head := Bits(text[0] as int, 8);
      var rest := TextToBinary(text[1..]);
      assert TextToBinary(text) == head + rest;
      GroupsCons(head, rest);
      GroupsToTextCons(head, Groups(rest));
      GroupsToTextOfTextToBinary(text[1..]);
      ValueOfBits(text[0] as int, 8);
      assert GroupToChar(head) == text[0];
      assert text == [text[0]] + text[1..];
    }
  }

  /** Re-encoding decoded full groups of eight digits gives the digits back. */
  lemma {:induction false} TextToBinaryOfGroupsToText(binary: string)
    requires IsBinary(binary) && |binary| % 8 == 0
    ensures TextToBinary(GroupsToText(Groups(binary))) == binary
  {
    if binary != [] {
      var head := binary[..8];
      var rest := binary[8..];
      assert binary == head + rest;
      GroupsCons(head, rest);
      GroupsToTextCons(head, Groups(rest));
      TextToBinaryOfGroupsToText(rest);
      var text := GroupsToText(Groups(binary));
      assert text == [GroupToChar(head)] + GroupsToText(Groups(rest));
      BitsOfValue(head);
      assert text[0] == GroupToChar(head) && text[1..] == GroupsToText(Groups(rest));
    }
  }

  // ---------------------------------------------------------------- round trips

  /** Decoding an encoding gives the text back, for every text of eight-bit characters. */
  lemma TextRoundTrip(text: string)
    requires IsByteText(text)
    ensures DnaToText(TextToDna(text)) == Success(text)
  {
    BasesToBinaryOfBinaryToBases(TextToBinary(text));
    GroupsToTextOfTextToBinary(text);
  }

  /** Encoding a decoding gives the bases back, for base strings made of whole characters. */
  lemma DnaRoundTrip(dna: string)
    requires IsDna(dna) && |dna| % 4 == 0
    ensures DnaToText(dna).Success?
    ensures TextToDna(DnaToText(dna).value) == dna
  {
    var binary := BasesToBinary(dna).value;
    TextToBinaryOfGroupsToText(binary);
    BinaryToBasesOfBasesToBinary(dna);
  }
}
