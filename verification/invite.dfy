/**
 * Invite codes for groups (`generateInviteCode`).
 *
 * A code is six symbols drawn from a 32-symbol alphabet that leaves out the
 * look-alike characters I, O, 0 and 1. The random draws are a parameter: each
 * draw is the index `floor(random * 32)` the source computes.
 */
module InviteCode {
  import opened Text

  const Alphabet: string := "ABCDEFGHJKLMNPQRSTUVWXYZ23456789"
  const CodeLength := 6
  const AlphabetSize := 32

  /** One random draw: an index into the alphabet. */
  type Draw = d: int | 0 <= d < 32

  /**
   * The symbol at position `i` of the alphabet, by arithmetic: `A`-`H`, then
   * `J`-`N` (skipping `I`), then `P`-`Z` (skipping `O`), then `2`-`9`.
   */
  function SymbolAt(i: Draw): char {
    if i < 8 then ('A' as int + i) as char
    else if i < 13 then ('A' as int + i + 1) as char
    else if i < 24 then ('A' as int + i + 2) as char
    else ('2' as int + i - 24) as char
  }

  /** The position of a symbol in the alphabet, inverting `SymbolAt`. */
  function IndexOf(c: char): int {
    if 'A' <= c <= 'H' then c as int - 'A' as int
    else if 'J' <= c <= 'N' then c as int - 'A' as int - 1
    else if 'P' <= c <= 'Z' then c as int - 'A' as int - 2
    else c as int - '2' as int + 24
  }

  predicate InAlphabet(c: char) {
    ('A' <= c <= 'Z' && c != 'I' && c != 'O') || ('2' <= c <= '9')
  }

  /** The alphabet string spells out `SymbolAt`, position by position. */
  lemma AlphabetSpelled()
    ensures |Alphabet| == AlphabetSize
    ensures forall i: Draw :: Alphabet[i] == SymbolAt(i)
  {
    assert Alphabet == seq(32, (i: int) requires 0 <= i < 32 => SymbolAt(i));
  }

  /** Every symbol is an upper-case letter or a digit other than I, O, 0 and 1, and `IndexOf` inverts `SymbolAt`. */
  lemma SymbolFacts(i: Draw)
    ensures InAlphabet(SymbolAt(i)) && IsCodeChar(SymbolAt(i))
    ensures SymbolAt(i) !in {'I', 'O', '0', '1'}
    ensures IndexOf(SymbolAt(i)) == i
  {
  }

  /** The alphabet has 32 distinct symbols, and none of them is I, O, 0 or 1. */
  lemma AlphabetDistinctNoLookAlikes()
    ensures |Alphabet| == 32
    ensures forall i, j :: 0 <= i < j < |Alphabet| ==> Alphabet[i] != Alphabet[j]
    ensures 'I' !in Alphabet && 'O' !in Alphabet && '0' !in Alphabet && '1' !in Alphabet
  {
    AlphabetSpelled();
    forall i, j | 0 <= i < j < |Alphabet| ensures Alphabet[i] != Alphabet[j] {
      SymbolFacts(i);
      SymbolFacts(j);
    }
    forall i | 0 <= i < |Alphabet| ensures Alphabet[i] !in {'I', 'O', '0', '1'} {
      SymbolFacts(i);
    }
  }

  /** The code the draws spell, one symbol per draw. */
  function Encode(draws: seq<Draw>): (code: string)
    ensures |code| == |draws|
  {
    AlphabetSpelled();
    seq(|draws|, i requires 0 <= i < |draws| => Alphabet[draws[i]])
  }

  /** The draws a code was spelled from. */
  function Decode(code: string): seq<int> {
    seq(|code|, i requires 0 <= i < |code| => IndexOf(code[i]))
  }

  /** Decoding recovers the draws, so different draws give different codes. */
  lemma DecodeEncode(draws: seq<Draw>)
    ensures Decode(Encode(draws)) == draws
  {
    AlphabetSpelled();
    forall i | 0 <= i < |draws| ensures Decode(Encode(draws))[i] == draws[i] {
      SymbolFacts(draws[i]);
    }
  }

  lemma EncodeInjective(a: seq<Draw>, b: seq<Draw>)
    requires Encode(a) == Encode(b)
    ensures a == b
  {
    DecodeEncode(a);
    DecodeEncode(b);
  }

  /** Every encoded symbol is in the alphabet, hence an upper-case letter or a digit. */
  lemma EncodedSymbols(draws: seq<Draw>)
    ensures forall i :: 0 <= i < |Encode(draws)| ==>
              InAlphabet(Encode(draws)[i]) && IsCodeChar(Encode(draws)[i])
  {
    AlphabetSpelled();
    forall i | 0 <= i < |draws| ensures InAlphabet(Encode(draws)[i]) && IsCodeChar(Encode(draws)[i]) {
      SymbolFacts(draws[i]);
    }
  }

  /**
   * `generateInviteCode`: appends one alphabet symbol per draw, six times.
   * `draws[i]` is the index the `i`-th call to the random source yields.
   */
  method GenerateInviteCode(draws: seq<Draw>) returns (code: string)
    requires |draws| == CodeLength
    ensures |code| == CodeLength
    ensures forall i :: 0 <= i < |code| ==> InAlphabet(code[i]) && IsCodeChar(code[i])
    ensures code == Encode(draws)
    ensures Decode(code) == draws
  {
    AlphabetSpelled();
    code := "";
    for i := 0 to CodeLength
      invariant code == Encode(draws[..i])
    {
      code := code + [Alphabet[draws[i]]];
    }
    assert draws[..CodeLength] == draws;
    EncodedSymbols(draws);
    DecodeEncode(draws);
  }
}
