/** The three lookup tables of app.py and the four-letter alphabet they range over. */
module Tables {
  import opened Binary

  /** `binary_to_dna`: each two-digit binary group to its base. */
  const BinaryToDna: map<string, char> := map["00" := 'A', "01" := 'T', "10" := 'G', "11" := 'C']

  /**
   * `dna_to_binary`. The source builds it by swapping the keys and values of `binary_to_dna`;
   * it is written out here, and `DnaToBinaryInvertsBinaryToDna` proves it is that inversion.
   */
  const DnaToBinary: map<char, string> := map['A' := "00", 'T' := "01", 'G' := "10", 'C' := "11"]

  /** `complement_map`: the base pairing. */
  const ComplementMap: map<char, char> := map['A' := 'T', 'T' := 'A', 'G' := 'C', 'C' := 'G']

  predicate IsBase(c: char) {
    c == 'A' || c == 'T' || c == 'G' || c == 'C'
  }

  predicate IsDna(s: string) {
    forall i :: 0 <= i < |s| ==> IsBase(s[i])
  }

  predicate IsBitPair(s: string) {
    |s| == 2 && IsBinary(s)
  }

  /** `dna_to_binary` is the exact inverse of `binary_to_dna`, and both cover their whole alphabets. */
  lemma DnaToBinaryInvertsBinaryToDna()
    ensures forall k :: k in BinaryToDna <==> IsBitPair(k)
    ensures forall b :: b in DnaToBinary <==> IsBase(b)
    ensures forall k :: k in BinaryToDna ==> BinaryToDna[k] in DnaToBinary && DnaToBinary[BinaryToDna[k]] == k
    ensures forall b :: b in DnaToBinary ==> DnaToBinary[b] in BinaryToDna && BinaryToDna[DnaToBinary[b]] == b
  {
    forall k | IsBitPair(k) ensures k in BinaryToDna {
      assert k == [k[0], k[1]];
    }
  }

  /** `complement_map` pairs A with T and G with C, is defined on the bases only, and is an involution. */
  lemma ComplementIsPairing()
    ensures forall b :: b in ComplementMap <==> IsBase(b)
    ensures ComplementMap['A'] == 'T' && ComplementMap['T'] == 'A'
    ensures ComplementMap['G'] == 'C' && ComplementMap['C'] == 'G'
    ensures forall b :: b in ComplementMap ==> ComplementMap[b] in ComplementMap && ComplementMap[ComplementMap[b]] == b && ComplementMap[b] != b
  {
  }
}
