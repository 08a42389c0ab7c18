# DNA codec, sequence utilities and password generator

A Dafny model of the logic in `app.py` of a small "DNA" demo application:

- the **codec**. `text_to_dna` writes each character's code point as eight binary digits and reads
  the digits two at a time as bases (00 A, 01 T, 10 G, 11 C). `dna_to_text` reverses this: it maps
  each base back to two digits, cuts the digits into groups of eight and turns each group into a
  character;
- the **sequence utilities** that the UI computes inline: the per-base counts of "DNA Stats", the
  complement (A with T, G with C, other symbols dropped) and the reverse;
- the **password generator** `generate_password`. It draws `2 * length` random bases. Each of the
  first `length` bases picks a character class: lowercase, uppercase, digit or one of `!@#$%^&*`.
  The password is rebuilt until it holds every class.

Modules, one per concern of the file:

| file | module | models |
|---|---|---|
| `wrappers.dfy` | `Wrappers` | a `Result` type for the errors the source raises as exceptions |
| `binary.dfy` | `Binary` | binary numerals as strings of `'0'`/`'1'`: `format(n, '08b')` and `int(s, 2)` |
| `tables.dfy` | `Tables` | `binary_to_dna`, `dna_to_binary`, `complement_map` |
| `codec.dfy` | `Codec` | `text_to_dna`, `dna_to_text` |
| `dna_tools.dfy` | `DnaTools` | stats, complement, reverse |
| `password.dfy` | `Password` | `generate_password` and a corrected version |

Texts are `string` (`seq<char>`). The codec is defined on texts whose code points are all below 256
(`IsByteText`). Decoding returns `Failure(InvalidBase(c))` where the source raises a `KeyError`; `c`
is the first symbol that is not a base. The UI turns that error into its "invalid DNA" message.

Randomness is an input. `rolls: nat -> nat` gives the raw number behind each call to
`random.choice`, and the k-th call returns `pool[rolls(k) % |pool|]`. Calls are numbered in the
source's order: first the `2 * length` base draws, then `length` character draws per loop pass.

Behaviours of the code that the model keeps:

- `dna_to_text` does not reject a sequence whose length is not a multiple of four (or of eight).
  A trailing group of one to three bases is read as a shorter binary number, so `"T"` decodes to
  the character with code point 1 (`DecodeShortTailExample`).
- The complement silently drops symbols that are not bases.
- `generate_password` does not fail fast for a length below four. It never returns
  (`ShortLengthNeverAccepted`).

## Model

| member | source | states |
|---|---|---|
| `Binary.Bits` | app.py:17 | `format(n, '08b')` gives exactly the requested number of digits, all binary |
| `Binary.Value` | app.py:23 | `int(c, 2)` of a numeral of k digits is below 2^k |
| `Binary.ValueOfBits` | app.py:17-23 | reading back the digits of a number that fits gives that number |
| `Binary.BitsOfValue` | app.py:17-23 | writing the value of a numeral in as many digits gives the numeral back |
| `Tables.DnaToBinaryInvertsBinaryToDna` | app.py:11-12 | `dna_to_binary` is the exact inverse of `binary_to_dna`; their keys are exactly the two-digit numerals and the four bases |
| `Tables.ComplementIsPairing` | app.py:13 | `complement_map` is defined on the four bases only, pairs A with T and G with C, has no fixed point and is an involution |
| `Codec.TextToBinary` | app.py:17 | the joined eight-digit code points have eight binary digits per character |
| `Codec.BinaryToBases` | app.py:18 | reading the digits two at a time gives half as many symbols, all bases |
| `Codec.TextToDna` | app.py:16-18 | the encoding has four symbols per character, all from A, T, G, C |
| `Codec.EncodeExample` | app.py:16-18 | `"A"` (01000001) encodes to `"TAAT"` |
| `Codec.TextToDnaAppend` | app.py:16-18 | encoding distributes over concatenation: each character is encoded on its own |
| `Codec.BinaryToBasesAppend` | app.py:18 | reading digit pairs distributes over concatenation of even-length numerals |
| `Codec.TextToBinaryAppend` | app.py:17 | the digit string of a concatenation is the concatenation of the digit strings |
| `Codec.BasesToBinary` | app.py:21 | the base-to-digits join succeeds exactly when every symbol is a base, and then gives two binary digits per base |
| `Codec.Groups` | app.py:22 | cutting n digits into groups of eight gives (n+7)/8 groups; groups cut from a binary numeral are binary numerals of one to eight digits |
| `Codec.GroupsAreSlices` | app.py:22 | the k-th group is `binary[8k : 8k+8]`, clamped to the end of the digits |
| `Codec.GroupsCons` | app.py:22 | a leading run of eight digits becomes the first group, and the rest is grouped on its own |
| `Codec.GroupToChar` | app.py:23 | `chr(int(c, 2))` of a group of one to eight digits is the character whose code point is the group's value, below 256 |
| `Codec.GroupsToText` | app.py:23 | one character per group, each with a code point below 256 |
| `Codec.GroupsToTextCons` | app.py:23 | the characters of a list of groups are the first group's character followed by the characters of the rest |
| `Codec.DnaToText` | app.py:20-23 | decoding succeeds exactly when every symbol is a base, and then gives ceil(n/4) characters, each below 256 |
| `Codec.DecodeFailsAtFirstInvalid` | app.py:21 | on input with a non-base symbol, decoding fails and names the first non-base symbol, after an all-base prefix |
| `Codec.DecodeInvalidExample` | app.py:21 | `"AXGC"` fails with `InvalidBase('X')` |
| `Codec.DecodeShortTailExample` | app.py:20-23 | a trailing group shorter than four bases is accepted: `"T"` decodes to `chr(1)` |
| `Codec.BasesToBinaryOfBinaryToBases` | app.py:18-21 | mapping bases back to digits undoes reading digits as bases |
| `Codec.BinaryToBasesOfBasesToBinary` | app.py:18-21 | reading digits as bases undoes mapping bases to digits |
| `Codec.GroupsToTextOfTextToBinary` | app.py:17-23 | decoding the eight-digit groups of a text's code points gives the text |
| `Codec.TextToBinaryOfGroupsToText` | app.py:17-23 | re-encoding the characters decoded from full eight-digit groups gives the digits back |
| `Codec.TextRoundTrip` | app.py:16-23 | `dna_to_text(text_to_dna(t)) == t` for every text of code points below 256 |
| `Codec.DnaRoundTrip` | app.py:16-23 | for an all-base string whose length is a multiple of four, decoding succeeds and `text_to_dna(dna_to_text(s)) == s` |
| `DnaTools.Count` | app.py:65 | `s.count(c)` is the multiplicity of `c` in `s` |
| `DnaTools.Stats` | app.py:65 | the stats map has exactly the four bases as keys, each mapped to its multiplicity in the input |
| `DnaTools.BaseCount` | app.py:65 | the number of base symbols is at most the length, with equality exactly for all-base input |
| `DnaTools.CountsSum` | app.py:65 | the four counts add up to the number of base symbols |
| `DnaTools.StatsTotal` | app.py:65 | the four stats add up to at most the input length, with equality exactly when the input is all bases |
| `DnaTools.Complement` | app.py:70 | the complement consists of bases only and has one symbol per base of the input |
| `DnaTools.KeepBases` | app.py:70 | the bases of the input in order, the reference for what the complement keeps |
| `DnaTools.ComplementDropsNonBases` | app.py:70 | the complement depends only on the bases of the input; it keeps the length exactly when the input is all bases |
| `DnaTools.ComplementOfDna` | app.py:70 | on all-base input the complement keeps the length and pairs each base with its partner position by position |
| `DnaTools.ComplementAppend` | app.py:70 | the complement distributes over concatenation |
| `DnaTools.ComplementTwice` | app.py:70 | complementing twice keeps exactly the bases of any input |
| `DnaTools.KeepBasesOfDna` | app.py:70 | all-base input keeps every symbol |
| `DnaTools.ComplementInvolution` | app.py:70 | on all-base input, complementing twice gives the input back |
| `DnaTools.Reverse` | app.py:75 | `s[::-1]` has the length of `s` |
| `DnaTools.ReverseAt` | app.py:75 | the i-th symbol of the reverse is the i-th from the end |
| `DnaTools.ReverseAppend` | app.py:75 | reversing a concatenation reverses and swaps the parts |
| `DnaTools.ReverseInvolution` | app.py:75 | reversing twice gives the input back |
| `DnaTools.ComplementReverse` | app.py:70-75 | complement and reverse commute |
| `Password.CharRange` | app.py:30-32 | `ascii_lowercase`, `ascii_uppercase` and `digits` are runs of consecutive code points that hold exactly the characters of their range |
| `Password.PoolsAreClasses` | app.py:30-37 | a character is in `ascii_lowercase`, `ascii_uppercase` or `digits` exactly when `islower`, `isupper` or `isdigit` accepts it |
| `Password.Choice` | app.py:27-33 | `random.choice(pool)` returns a member of the pool |
| `Password.ClassPool` | app.py:29-33 | every base selects a non-empty character pool |
| `Password.HasAllClasses` | app.py:35-38 | the four `any(...)` tests; the classes are disjoint, so a password passing them has at least four characters |
| `Password.DrawBase` | app.py:27 | `random.choice("ATGC")` returns a base |
| `Password.DrawDna` | app.py:27 | the drawn `dna_seq` has `2 * length` symbols, all bases |
| `Password.BuildPassword` | app.py:29-34 | one pass builds a password with one character per base of `dna_seq[:length]` |
| `Password.ChoiceInClass` | app.py:29-38 | a character drawn for a base passes exactly the class test that base selects and fails the other three |
| `Password.BuildPasswordInClass` | app.py:29-34 | every password character is in the class its base selects |
| `Password.AllBasesGiveAllClasses` | app.py:29-38 | if the bases include all four, the built password passes the exit test |
| `Password.AllClassesNeedAllBases` | app.py:29-38 | if the built password passes the exit test, its bases include all four |
| `Password.AllClassesIffAllBases` | app.py:29-38 | the exit test succeeds exactly when `dna_seq[:length]` contains A, T, G and C, whatever characters are picked |
| `Password.EveryPassAgrees` | app.py:27-39 | since `dna_seq` is drawn once, every pass of the loop gets the same verdict as the first: it exits on the first pass or never |
| `Password.AllBasesNeedFour` | app.py:35-38 | containing all four bases needs at least four symbols |
| `Password.ShortLengthNeverAccepted` | app.py:26-39 | for `length < 4` no pass ever exits the loop |
| `Password.DefaultLengthCanHang` | app.py:26-39 | at the default length 12, rolls that draw only `A` make every pass fail |
| `Password.GeneratePassword` | app.py:26-40 | when `dna_seq[:length]` has all four bases, the loop exits after one pass: `dna_seq` is the draw (2 × length bases), the password has `length` characters, each in the class of its base, and holds every class |
| `Password.RedrawDna` | app.py:27 | a fresh draw on any pass has `2 * length` symbols, all bases |
| `Password.AttemptWellFormed` | app.py:27-38 | every pass of the redrawing generator is well formed, and it passes the exit test exactly when its prefix has all four bases |
| `Password.FirstRedrawIsDrawDna` | app.py:27 | the redrawing generator's first draw is the draw `generate_password` makes |
| `Password.ShortLengthNeverRedraws` | app.py:26-39 | for `length < 4` no pass, however the bases are redrawn, holds all four bases among its first `length` |
| `Password.LongLengthCanSucceed` | app.py:26-39 | for every `length >= 4` some rolls make the first pass hold all four bases, in the redrawing and the as-written generator alike; with `ShortLengthNeverRedraws`, `InvalidLength` rejects exactly the lengths no rolls could satisfy |
| `Password.FirstAttemptIsAsWritten` | app.py:26-34 | the first pass of the redrawing generator computes exactly what `generate_password` computes |
| `Password.GeneratePasswordRedrawing` | app.py:26-40 | fails with `InvalidLength` exactly when `length < 4`; otherwise it returns the first pass whose bases hold all four, and that result is well formed (a password of `length` characters, each in the class of its base, holding every class, with `2 * length` bases); when the first pass's bases hold all four it returns that first pass, which `FirstAttemptIsAsWritten` shows is what `generate_password` returns |
| `Password.RetryPasses` | app.py:28-39 | the retry loop returns the first pass, in order, whose bases hold all four |
| `Password.NoPassBeforeEach` | app.py:28-39 | when no pass before a given one succeeds, each earlier pass in particular fails |

## Left out

- The Streamlit UI: menus, buttons, text inputs, the `if teks:` guards that skip empty input, and the messages shown (app.py:42-115).
- QR code generation and scanning (`qrcode`, OpenCV, PIL, numpy). These are foreign library calls on images.
- IP geolocation (`geocoder.ip`). This is network I/O; the location string is only more text for the encoder.
- The bare `except:` around decoding. Decode failure is the `Result` value `InvalidBase` instead of an exception.
- Characters with code points of 256 or more. For them `format(ord(c), '08b')` gives more than eight digits, which misaligns the output or raises a `KeyError`; the codec requires `IsByteText`.
- `IsLower`, `IsUpper`, `IsDigit` are the ASCII meanings of `str.islower`, `str.isupper`, `str.isdigit`. Only ASCII characters from the four pools ever reach those tests.
- The probability distribution of `random.choice` and how it consumes the generator's state. Each call is one roll of the `rolls` oracle.
- The default argument `length=12` is not modelled as a default; `DefaultLengthCanHang` uses 12 explicitly.
- `Tables.DnaToBinaryInvertsBinaryToDna`: `dna_to_binary` is written out as a literal table instead of being computed by inverting `binary_to_dna`. The lemma proves that it is that inversion.
- `Password.GeneratePassword`: requires that the first `length` drawn bases include all four. Without that the source never returns (`EveryPassAgrees`, `ShortLengthNeverAccepted`), and a terminating Dafny method cannot express a call that never returns.
- `Password.GeneratePasswordRedrawing`: requires, for a length of at least four, that some pass draws all four bases among its first `length`. That holds with probability one but not for every possible sequence of rolls.
- `DnaTools.Reverse`: defined by recursion instead of a slice with step -1. `ReverseAt` proves it picks the same element at every index.

## Findings

| source | as written | input that shows it | evidently intended | confidence | as-written member | corrected member |
|---|---|---|---|---|---|---|
| app.py:27-39 | `dna_seq` is drawn once, before the `while True` loop. Each pass redraws only the characters, whose classes `dna_seq[:length]` already fixes, so a pass that fails is repeated with the same failing outcome forever | `generate_password(12)` when the first twelve drawn bases miss at least one of the four (for instance no `C`, or all `A`); that happens for about one call in eight. Any `length < 4` as well | each retry can succeed: draw the bases again on every pass, and reject a length below four, which no draw can satisfy | high; not executed | `Password.DefaultLengthCanHang` | `Password.GeneratePasswordRedrawing` |
