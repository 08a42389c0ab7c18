/**
 * `generate_password` of app.py. A base sequence of twice the requested length is drawn; each of
 * its first `length` bases picks the class of one password character (A lowercase, T uppercase,
 * G digit, anything else one of "!@#$%^&*"), and the password is rebuilt until it holds a
 * character of every class.
 *
 * Randomness is an explicit input: `rolls(k)` is the raw number behind the k-th call to
 * `random.choice`, which then returns `pool[rolls(k) % |pool|]`. The calls are numbered in the
 * order the source makes them: the 2 * length base draws first, then `length` character draws
 * for each pass of the loop.
 */
module Password {
  import opened Wrappers
  import opened Tables

  type Rolls = nat -> nat

  /** `string.ascii_lowercase`, `string.ascii_uppercase`, `string.digits` and the symbol set. */
  const Lowercase: string := CharRange('a', 26)
  const Uppercase: string := CharRange('A', 26)
  const Digits: string := CharRange('0', 10)
  const Symbols: string := "!@#$%^&*"

  /** The `n` characters with consecutive code points from `first` on, in order: exactly the characters of that range. */
  function CharRange(first: char, n: nat): (r: string)
    requires first as int + n <= 128
    ensures |r| == n
    ensures forall c: char :: c in r <==> first as int <= c as int < first as int + n
  {
    var r := seq(n, i requires 0 <= i < n => (first as int + i) as char);
    RunMembership(r, first);
    r
  }

  /** A string of consecutive code points holds exactly the characters in its range. */
  lemma RunMembership(run: string, first: char)
    requires forall k :: 0 <= k < |run| ==> run[k] as int == first as int + k
    ensures forall c: char :: c in run <==> first as int <= c as int < first as int + |run|
  {
    forall c: char | first as int <= c as int < first as int + |run|
      ensures c in run
    {
      assert run[c as int - first as int] == c;
    }
  }

  /** The alphabet the bases are drawn from, in the order of the source's pool. */
  const Alphabet: string := "ATGC"

  /** `random.choice(pool)` when the draw is `roll`. */
  function Choice(pool: string, roll: nat): (c: char)
    requires |pool| > 0
    ensures c in pool
  {
    pool[roll % |pool|]
  }

  // ---------------------------------------------------------------- character classes

  /** `c.islower()`, `c.isupper()`, `c.isdigit()` and `c in "!@#$%^&*"`, on ASCII characters. */
  predicate IsLower(c: char) { 'a' <= c <= 'z' }
  predicate IsUpper(c: char) { 'A' <= c <= 'Z' }
  predicate IsDigit(c: char) { '0' <= c <= '9' }
  predicate IsSymbol(c: char) { c in Symbols }

  /** The pool of the conditional expression inside the join, selected by one base. */
  function ClassPool(base: char): (pool: string)
    ensures |pool| > 0
  {
    if base == 'A' then Lowercase
    else if base == 'T' then Uppercase
    else if base == 'G' then Digits
    else Symbols
  }

  /** `c` belongs to the class that `base` selects, and to no other class. */
  predicate InClassOf(c: char, base: char) {
    && (IsLower(c) <==> base == 'A')
    && (IsUpper(c) <==> base == 'T')
    && (IsDigit(c) <==> base == 'G')
    && (IsSymbol(c) <==> base == 'C')
  }

  /** The four `any(...)` tests of the loop's exit condition. The classes are disjoint, so passing takes four characters. */
  predicate HasAllClasses(password: string)
    ensures HasAllClasses(password) ==> |password| >= 4
  {
    && (exists i :: 0 <= i < |password| && IsLower(password[i]))
    && (exists i :: 0 <= i < |password| && IsUpper(password[i]))
    && (exists i :: 0 <= i < |password| && IsDigit(password[i]))
    && (exists i :: 0 <= i < |password| && IsSymbol(password[i]))
  }

  predicate HasAllBases(s: string) {
    'A' in s && 'T' in s && 'G' in s && 'C' in s
  }

  // ---------------------------------------------------------------- the draws

  /** `''.join(random.choice("ATGC") for _ in range(length * 2))`, using rolls 0 .. 2 * length - 1. */
  function DrawDna(rolls: Rolls, length: nat): (dna: string)
    ensures |dna| == 2 * length && IsDna(dna)
  {
    var dna := seq(2 * length, i requires 0 <= i < 2 * length => DrawBase(rolls(i)));
    assert forall i :: 0 <= i < |dna| ==> dna[i] == DrawBase(rolls(i));
    dna
  }

  /** `random.choice("ATGC")` when the draw is `roll`. */
  function DrawBase(roll: nat): (b: char)
    ensures IsBase(b)
  {
    Choice(Alphabet, roll)
  }

  /** One pass of the loop body: a character from the class of each base of `prefix`, using the rolls from `start` on. */
  function BuildPassword(prefix: string, rolls: Rolls, start: nat): (password: string)
    ensures |password| == |prefix|
  {
    seq(|prefix|, i requires 0 <= i < |prefix| => Choice(ClassPool(prefix[i]), rolls(start + i)))
  }

  /** The first roll used by the given pass of the loop. */
  function PassStart(length: nat, pass: nat): nat {
    2 * length + pass * length
  }

  /** Whether the exit test succeeds on the given pass. */
  predicate PassAccepted(rolls: Rolls, length: nat, dna: string, pass: nat)
    requires length <= |dna|
  {
    HasAllClasses(BuildPassword(dna[..length], rolls, PassStart(length, pass)))
  }

  // ---------------------------------------------------------------- lemmas

  /** The three pools of the `string` module hold exactly the characters their class tests accept. */
  lemma PoolsAreClasses(c: char)
    ensures c in Lowercase <==> IsLower(c)
    ensures c in Uppercase <==> IsUpper(c)
    ensures c in Digits <==> IsDigit(c)
  {
  }

  /** A character drawn for a base lies in that base's class and in no other. */
  lemma ChoiceInClass(base: char, roll: nat)
    requires IsBase(base)
    ensures InClassOf(Choice(ClassPool(base), roll), base)
  {
    var pool := ClassPool(base);
    var k := roll % |pool|;
    assert Choice(pool, roll) == pool[k];
    PoolsAreClasses(pool[k]);
    if base == 'C' {
      assert Symbols == ['!', '@', '#', '$', '%', '^', '&', '*'];
      assert IsSymbol(pool[k]);
    }
  }

  /** Every character of a built password is in the class its base selects. */
  lemma {:induction false} BuildPasswordInClass(prefix: string, rolls: Rolls, start: nat)
    requires IsDna(prefix)
    ensures forall i :: 0 <= i < |prefix| ==> InClassOf(BuildPassword(prefix, rolls, start)[i], prefix[i])
  {
    forall i | 0 <= i < |prefix|
      ensures InClassOf(BuildPassword(prefix, rolls, start)[i], prefix[i])
    {
      ChoiceInClass(prefix[i], rolls(start + i));
    }
  }

  lemma AllBasesGiveAllClasses(prefix: string, rolls: Rolls, start: nat)
    requires IsDna(prefix) && HasAllBases(prefix)
    ensures HasAllClasses(BuildPassword(prefix, rolls, start))
  {
    var password := BuildPassword(prefix, rolls, start);
    BuildPasswordInClass(prefix, rolls, start);
    var a :| 0 <= a < |prefix| && prefix[a] == 'A';
    var t :| 0 <= t < |prefix| && prefix[t] == 'T';
    var g :| 0 <= g < |prefix| && prefix[g] == 'G';
    var c :| 0 <= c < |prefix| && prefix[c] == 'C';
    assert InClassOf(password[a], 'A') && InClassOf(password[t], 'T');
    assert InClassOf(password[g], 'G') && InClassOf(password[c], 'C');
  }

  lemma AllClassesNeedAllBases(prefix: string, rolls: Rolls, start: nat)
    requires IsDna(prefix) && HasAllClasses(BuildPassword(prefix, rolls, start))
    ensures HasAllBases(prefix)
  {
    var password := BuildPassword(prefix, rolls, start);
    BuildPasswordInClass(prefix, rolls, start);
    var a :| 0 <= a < |password| && IsLower(password[a]);
    var t :| 0 <= t < |password| && IsUpper(password[t]);
    var g :| 0 <= g < |password| && IsDigit(password[g]);
    var c :| 0 <= c < |password| && IsSymbol(password[c]);
    assert InClassOf(password[a], prefix[a]) && InClassOf(password[t], prefix[t]);
    assert InClassOf(password[g], prefix[g]) && InClassOf(password[c], prefix[c]);
  }

  /**
   * The exit test depends on the bases alone: a built password has every class exactly when its
   * bases include all four, whatever characters the rolls pick.
   */
  lemma AllClassesIffAllBases(prefix: string, rolls: Rolls, start: nat)
    requires IsDna(prefix)
    ensures HasAllClasses(BuildPassword(prefix, rolls, start)) <==> HasAllBases(prefix)
  {
    if HasAllBases(prefix) {
      AllBasesGiveAllClasses(prefix, rolls, start);
    }
    if HasAllClasses(BuildPassword(prefix, rolls, start)) {
      AllClassesNeedAllBases(prefix, rolls, start);
    }
  }

  /**
   * Because the bases are drawn once, before the loop, every pass gives the same verdict: if the
   * first pass does not exit, no pass ever does.
   */
  lemma EveryPassAgrees(rolls: Rolls, length: nat, pass: nat)
    ensures PassAccepted(rolls, length, DrawDna(rolls, length), pass) <==>
            PassAccepted(rolls, length, DrawDna(rolls, length), 0)
    ensures PassAccepted(rolls, length, DrawDna(rolls, length), pass) <==>
            HasAllBases(DrawDna(rolls, length)[..length])
  {
    var prefix := DrawDna(rolls, length)[..length];
    AllClassesIffAllBases(prefix, rolls, PassStart(length, pass));
    AllClassesIffAllBases(prefix, rolls, PassStart(length, 0));
  }

  /** Four distinct bases need four positions. */
  lemma AllBasesNeedFour(s: string)
    requires HasAllBases(s)
    ensures |s| >= 4
  {
    if |s| < 4 {
      var a :| 0 <= a < |s| && s[a] == 'A';
      var t :| 0 <= t < |s| && s[t] == 'T';
      var g :| 0 <= g < |s| && s[g] == 'G';
      var c :| 0 <= c < |s| && s[c] == 'C';
      assert false;
    }
  }

  /** A password shorter than four characters can never hold all four classes, so the loop never exits. */
  lemma ShortLengthNeverAccepted(rolls: Rolls, length: nat, pass: nat)
    requires length < 4
    ensures !PassAccepted(rolls, length, DrawDna(rolls, length), pass)
  {
  }

  /** Rolls that are always zero: every base drawn is 'A'. */
  function ZeroRolls(k: nat): nat {
    0
  }

  /** At the default length of twelve, the all-'A' draw of `ZeroRolls` makes the loop spin forever (`EveryPassAgrees` covers every draw that misses a base). */
  lemma DefaultLengthCanHang(pass: nat)
    ensures !PassAccepted(ZeroRolls, 12, DrawDna(ZeroRolls, 12), pass)
  {
    EveryPassAgrees(ZeroRolls, 12, pass);
    var prefix := DrawDna(ZeroRolls, 12)[..12];
    assert DrawBase(0) == 'A';
    assert forall i :: 0 <= i < 12 ==> prefix[i] == DrawBase(ZeroRolls(i)) == 'A';
  }

  // ---------------------------------------------------------------- the generator

  /**
   * `generate_password(length)` as written. It returns only when the first `length` drawn bases
   * include all four (`EveryPassAgrees` shows that otherwise no pass exits), and then it returns
   * after the first pass.
   */
  method GeneratePassword(length: nat, rolls: Rolls) returns (password: string, dnaSeq: string)
    requires HasAllBases(DrawDna(rolls, length)[..length])
    ensures dnaSeq == DrawDna(rolls, length)
    ensures |dnaSeq| == 2 * length && IsDna(dnaSeq)
    ensures password == BuildPassword(dnaSeq[..length], rolls, PassStart(length, 0))
    ensures |password| == length
    ensures forall i :: 0 <= i < length ==> InClassOf(password[i], dnaSeq[i])
    ensures HasAllClasses(password)
  {
    dnaSeq := DrawDna(rolls, length);
    var prefix := dnaSeq[..length];
    ghost var first := BuildPassword(prefix, rolls, PassStart(length, 0));
    BuildPasswordInClass(prefix, rolls, PassStart(length, 0));
    AllClassesIffAllBases(prefix, rolls, PassStart(length, 0));
    // `while True: ... if ...: break`, with the break folded into the loop condition
    var pass := 0;
    var done := false;
    password := "";
    while !done
      invariant !done ==> pass == 0
      invariant done ==> pass == 1 && password == first
      decreases if done then 0 else 1
    {
      password := BuildPassword(prefix, rolls, PassStart(length, pass));
      done := HasAllClasses(password);
      pass := pass + 1;
    }
  }

  // ---------------------------------------------------------------- corrected generator

  datatype GenerateError = InvalidLength

  datatype Generated = Generated(password: string, dnaSeq: string)

  /** The first roll of a pass of the redrawing generator: each pass uses 2 * length rolls for bases and `length` for characters. */
  function RedrawStart(length: nat, pass: nat): nat {
    3 * length * pass
  }

  /** The bases drawn afresh on the given pass. */
  function RedrawDna(rolls: Rolls, length: nat, pass: nat): (dna: string)
    ensures |dna| == 2 * length && IsDna(dna)
  {
    var start := RedrawStart(length, pass);
    var dna := seq(2 * length, i requires 0 <= i < 2 * length => DrawBase(rolls(start + i)));
    assert forall i :: 0 <= i < |dna| ==> dna[i] == DrawBase(rolls(start + i));
    dna
  }

  /** Whether the bases drawn on the given pass of the redrawing generator include all four. */
  predicate RedrawHasAllBases(rolls: Rolls, length: nat, pass: nat) {
    HasAllBases(RedrawDna(rolls, length, pass)[..length])
  }

  /** No pass before the given one draws all four bases among its first `length`. */
  predicate NoPassBefore(rolls: Rolls, length: nat, pass: nat) {
    pass == 0 || (!RedrawHasAllBases(rolls, length, pass - 1) && NoPassBefore(rolls, length, pass - 1))
  }

  /** Every pass before a pass that `NoPassBefore` admits fails to draw all four bases. */
  lemma {:induction false} NoPassBeforeEach(rolls: Rolls, length: nat, pass: nat, earlier: nat)
    requires NoPassBefore(rolls, length, pass) && earlier < pass
    ensures !RedrawHasAllBases(rolls, length, earlier)
  {
    if earlier < pass - 1 {
      NoPassBeforeEach(rolls, length, pass - 1, earlier);
    }
  }

  /** Below length four no pass can draw all four bases; with `LongLengthCanSucceed`, the lengths the redrawing generator rejects are exactly those no rolls could satisfy. */
  lemma ShortLengthNeverRedraws(rolls: Rolls, length: nat, pass: nat)
    requires length < 4
    ensures !RedrawHasAllBases(rolls, length, pass)
  {
    var prefix := RedrawDna(rolls, length, pass)[..length];
    if HasAllBases(prefix) {
      AllBasesNeedFour(prefix);
    }
  }

  /** Rolls that cycle through the pool "ATGC". */
  function Cycle(k: nat): nat {
    k % 4
  }

  /**
   * From length four on, some rolls succeed on the first pass, in both generators: the bases
   * drawn by `Cycle` begin with A, T, G, C.
   */
  lemma LongLengthCanSucceed(length: nat)
    requires length >= 4
    ensures RedrawHasAllBases(Cycle, length, 0)
    ensures HasAllBases(DrawDna(Cycle, length)[..length])
  {
    var prefix := RedrawDna(Cycle, length, 0)[..length];
    assert RedrawStart(length, 0) == 0;
    assert prefix[0] == DrawBase(Cycle(0)) == 'A';
    assert prefix[1] == DrawBase(Cycle(1)) == 'T';
    assert prefix[2] == DrawBase(Cycle(2)) == 'G';
    assert prefix[3] == DrawBase(Cycle(3)) == 'C';
    FirstRedrawIsDrawDna(Cycle, length);
  }

  /** One pass of the redrawing generator: fresh bases, then a password built from them. */
  function Attempt(rolls: Rolls, length: nat, pass: nat): (g: Generated) {
    var dna := RedrawDna(rolls, length, pass);
    Generated(BuildPassword(dna[..length], rolls, RedrawStart(length, pass) + 2 * length), dna)
  }

  /** The shape `generate_password` promises: lengths, alphabet, and one class per base. */
  predicate WellFormed(g: Generated, length: nat) {
    && |g.dnaSeq| == 2 * length && IsDna(g.dnaSeq)
    && |g.password| == length
    && (forall i :: 0 <= i < length ==> InClassOf(g.password[i], g.dnaSeq[i]))
  }

  /** Every pass is well formed, and it passes the exit test exactly when its bases include all four. */
  lemma AttemptWellFormed(rolls: Rolls, length: nat, pass: nat)
    ensures WellFormed(Attempt(rolls, length, pass), length)
    ensures HasAllClasses(Attempt(rolls, length, pass).password) <==> RedrawHasAllBases(rolls, length, pass)
  {
    var dna := RedrawDna(rolls, length, pass);
    var prefix := dna[..length];
    var start := RedrawStart(length, pass) + 2 * length;
    var g := Attempt(rolls, length, pass);
    assert g.password == BuildPassword(prefix, rolls, start) && g.dnaSeq == dna;
    BuildPasswordInClass(prefix, rolls, start);
    forall i | 0 <= i < length ensures InClassOf(g.password[i], g.dnaSeq[i]) {
      assert prefix[i] == dna[i];
    }
    AllClassesIffAllBases(prefix, rolls, start);
  }

  /** The first pass of the redrawing generator draws the bases `generate_password` draws. */
  lemma FirstRedrawIsDrawDna(rolls: Rolls, length: nat)
    ensures RedrawDna(rolls, length, 0) == DrawDna(rolls, length)
  {
    var a, b := RedrawDna(rolls, length, 0), DrawDna(rolls, length);
    assert RedrawStart(length, 0) == 0;
    forall i | 0 <= i < 2 * length ensures a[i] == b[i] {
      assert a[i] == DrawBase(rolls(i)) == b[i];
    }
  }

  /** The first pass of the redrawing generator computes exactly what `generate_password` computes. */
  lemma FirstAttemptIsAsWritten(rolls: Rolls, length: nat)
    ensures Attempt(rolls, length, 0) ==
      Generated(BuildPassword(DrawDna(rolls, length)[..length], rolls, PassStart(length, 0)), DrawDna(rolls, length))
  {
    FirstRedrawIsDrawDna(rolls, length);
    assert RedrawStart(length, 0) + 2 * length == PassStart(length, 0);
  }

  /**
   * `generate_password` as evidently intended: the base sequence is drawn anew on every pass, so
   * that any pass can succeed, and a length below four, which no pass can satisfy, fails at once.
   * The method returns whenever some pass draws all four bases among its first `length`, which
   * for a length of at least four happens with probability one.
   */
  method GeneratePasswordRedrawing(length: nat, rolls: Rolls) returns (r: Result<Generated, GenerateError>)
    requires length >= 4 ==> exists pass: nat :: RedrawHasAllBases(rolls, length, pass)
    ensures r.Failure? <==> length < 4
    ensures r.Success? ==> WellFormed(r.value, length) && HasAllClasses(r.value.password)
    ensures r.Success? ==> exists pass: nat ::
      r.value == Attempt(rolls, length, pass) && RedrawHasAllBases(rolls, length, pass) && NoPassBefore(rolls, length, pass)
    ensures length >= 4 && RedrawHasAllBases(rolls, length, 0) ==> r == Success(Attempt(rolls, length, 0))
  {
    if length < 4 {
      return Failure(InvalidLength);
    }
    var g, last := RetryPasses(length, rolls);
    AttemptWellFormed(rolls, length, last);
    if 0 < last {
      NoPassBeforeEach(rolls, length, last, 0);
    }
    r := Success(g);
  }

  /** The `while True` loop of the redrawing generator: passes are tried in order until one passes the exit test. */
  method RetryPasses(length: nat, rolls: Rolls) returns (g: Generated, ghost last: nat)
    requires exists pass: nat :: RedrawHasAllBases(rolls, length, pass)
    ensures g == Attempt(rolls, length, last) && RedrawHasAllBases(rolls, length, last)
    ensures NoPassBefore(rolls, length, last)
  {
    ghost var target: nat :| RedrawHasAllBases(rolls, length, target);
    var pass: nat := 0;
    var done := false;
    g := Generated("", "");
    last := 0;
    while !done
      invariant !done ==> pass <= target
      invariant NoPassBefore(rolls, length, if done then last else pass)
      invariant done ==> g == Attempt(rolls, length, last) && HasAllClasses(g.password)
      decreases target + 1 - pass
    {
      AttemptWellFormed(rolls, length, pass);
      g := Attempt(rolls, length, pass);
      done := HasAllClasses(g.password);
      assert done || pass < target;
      last := pass;
      pass := pass + 1;
    }
    AttemptWellFormed(rolls, length, last);
  }
}
