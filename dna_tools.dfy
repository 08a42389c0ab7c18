/**
 * The sequence utilities that app.py computes inline in its UI handlers: "DNA Stats"
 * (a count per base), "Complement DNA" (base pairing, other symbols dropped) and
 * "Reverse DNA" (the string backwards).
 */
module DnaTools {
  import opened Tables

  // ---------------------------------------------------------------- stats

  /** `s.count(c)` for a single character `c`. */
  function Count(s: string, c: char): (n: nat)
    ensures n == multiset(s)[c]
    ensures n <= |s|
  {
    if s == [] then 0
    else
      assert s == [s[0]] + s[1..];
      (if s[0] == c then 1 else 0) + Count(s[1..], c)
  }

  /** `{base: s.count(base) for base in "ATGC"}` */
  function Stats(s: string): (stats: map<char, nat>)
    ensures forall b :: b in stats <==> IsBase(b)
    ensures forall b :: b in stats ==> stats[b] == multiset(s)[b]
  {
    map b | b in "ATGC" :: Count(s, b)
  }

  /** The number of symbols of `s` that are bases. */
  function BaseCount(s: string): (n: nat)
    ensures n <= |s|
    ensures n == |s| <==> IsDna(s)
  {
    if s == [] then 0
    else
      (if IsBase(s[0]) then 1 else 0) + BaseCount(s[1..])
  }

  /** The four counts add up to the number of bases, so to at most the length, with equality exactly for DNA. */
  lemma {:induction false} StatsTotal(s: string)
    ensures Stats(s)['A'] + Stats(s)['T'] + Stats(s)['G'] + Stats(s)['C'] == BaseCount(s)
    ensures Stats(s)['A'] + Stats(s)['T'] + Stats(s)['G'] + Stats(s)['C'] <= |s|
    ensures Stats(s)['A'] + Stats(s)['T'] + Stats(s)['G'] + Stats(s)['C'] == |s| <==> IsDna(s)
  {
    CountsSum(s);
  }

  lemma {:induction false} CountsSum(s: string)
    ensures Count(s, 'A') + Count(s, 'T') + Count(s, 'G') + Count(s, 'C') == BaseCount(s)
  {
    if s != [] {
      CountsSum(s[1..]);
    }
  }

  // ---------------------------------------------------------------- complement

  /** `''.join(complement_map.get(b, "") for b in s)` */
  function Complement(s: string): (r: string)
    ensures IsDna(r)
    ensures |r| == BaseCount(s)
  {
    if s == [] then ""
    else
      ComplementIsPairing();
      (if s[0] in ComplementMap then [ComplementMap[s[0]]] else "") + Complement(s[1..])
  }

  /** The bases of `s` in order, everything else dropped. */
  function KeepBases(s: string): (r: string)
    ensures IsDna(r)
  {
    if s == [] then ""
    else (if IsBase(s[0]) then [s[0]] else "") + KeepBases(s[1..])
  }

  /** Symbols that are not bases contribute nothing: the complement sees only the bases of its input. */
  lemma {:induction false} ComplementDropsNonBases(s: string)
    ensures Complement(s) == Complement(KeepBases(s))
    ensures |Complement(s)| == |s| <==> IsDna(s)
  {
    ComplementIsPairing();
    if s != [] {
      ComplementDropsNonBases(s[1..]);
      var head: string := if IsBase(s[0]) then [s[0]] else "";
      ComplementAppend(head, KeepBases(s[1..]));
      if IsBase(s[0]) {
        assert head[1..] == "";
      }
    }
  }

  /** On DNA, the complement keeps the length and pairs every base with its partner. */
  lemma {:induction false} ComplementOfDna(s: string)
    requires IsDna(s)
    ensures |Complement(s)| == |s|
    ensures forall i :: 0 <= i < |s| ==> Complement(s)[i] == ComplementMap[s[i]]
  {
    ComplementIsPairing();
    if s != [] {
      ComplementOfDna(s[1..]);
      var r := Complement(s);
      assert r == [ComplementMap[s[0]]] + Complement(s[1..]);
      forall i | 0 < i < |s| ensures r[i] == ComplementMap[s[i]] {
        assert r[i] == Complement(s[1..])[i - 1];
      }
    }
  }

  lemma {:induction false} ComplementAppend(s: string, t: string)
    ensures Complement(s + t) == Complement(s) + Complement(t)
  {
    if s == [] {
      assert s + t == t;
    } else {
      var head: string := if s[0] in ComplementMap then [ComplementMap[s[0]]] else "";
      assert (s + t)[0] == s[0] && (s + t)[1..] == s[1..] + t;
      assert Complement(s + t) == head + Complement(s[1..] + t);
      ComplementAppend(s[1..], t);
      assert Complement(s) == head + Complement(s[1..]);
      ConcatAssociates(head, Complement(s[1..]), Complement(t));
    }
  }

  /** Associativity of concatenation, stated apart so that `ComplementAppend` stays cheap to verify; it models nothing in the source. */
  lemma ConcatAssociates(a: string, b: string, c: string)
    ensures a + (b + c) == (a + b) + c
  {
  }

  /** Complementing twice keeps exactly the bases of the input. */
  lemma {:induction false} ComplementTwice(s: string)
    ensures Complement(Complement(s)) == KeepBases(s)
  {
    ComplementIsPairing();
    if s != [] {
      var head: string := if s[0] in ComplementMap then [ComplementMap[s[0]]] else "";
      ComplementAppend(head, Complement(s[1..]));
      ComplementTwice(s[1..]);
      if s[0] in ComplementMap {
        assert head[1..] == "";
      }
    }
  }

  lemma {:induction false} KeepBasesOfDna(s: string)
    requires IsDna(s)
    ensures KeepBases(s) == s
  {
    if s != [] {
      KeepBasesOfDna(s[1..]);
    }
  }

  /** On DNA the complement is an involution. */
  lemma ComplementInvolution(s: string)
    requires IsDna(s)
    ensures Complement(Complement(s)) == s
  {
    ComplementTwice(s);
    KeepBasesOfDna(s);
  }

  // ---------------------------------------------------------------- reverse

  /** `s[::-1]` */
  function Reverse(s: string): (r: string)
    ensures |r| == |s|
  {
    if s == [] then "" else Reverse(s[1..]) + [s[0]]
  }

  /** The i-th symbol of the reverse is the i-th from the end. */
  lemma {:induction false} ReverseAt(s: string, i: nat)
    requires i < |s|
    ensures Reverse(s)[i] == s[|s| - 1 - i]
  {
    if i < |s| - 1 {
      ReverseAt(s[1..], i);
    }
  }

  lemma {:induction false} ReverseAppend(s: string, t: string)
    ensures Reverse(s + t) == Reverse(t) + Reverse(s)
  {
    if s == [] {
      assert s + t == t;
    } else {
      assert (s + t)[0] == s[0] && (s + t)[1..] == s[1..] + t;
      ReverseAppend(s[1..], t);
    }
  }

  /** Reversing twice gives the input back. */
  lemma {:induction false} ReverseInvolution(s: string)
    ensures Reverse(Reverse(s)) == s
  {
    if s != [] {
      ReverseAppend(Reverse(s[1..]), [s[0]]);
      ReverseInvolution(s[1..]);
      assert s == [s[0]] + s[1..];
    }
  }

  /** Reversing and complementing commute, so the reverse complement can be taken in either order. */
  lemma {:induction false} ComplementReverse(s: string)
    ensures Complement(Reverse(s)) == Reverse(Complement(s))
  {
    if s != [] {
      ComplementAppend(Reverse(s[1..]), [s[0]]);
      ComplementReverse(s[1..]);
      var head: string := if s[0] in ComplementMap then [ComplementMap[s[0]]] else "";
      assert Complement([s[0]]) == head;
      ReverseAppend(head, Complement(s[1..]));
      assert Reverse(head) == head;
    }
  }
}
