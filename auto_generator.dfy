/** The identifier generator: four random draws, each an index into the
    decimal digits, spelled out as a 4-character string. The random source
    is a parameter: the draws are given as a sequence. */
module AutoGenerator {

  /** The alphabet ids are drawn from. */
  const Characters: string := "0123456789"

  /** Number of characters in a generated id. */
  const IdLength: nat := 4

  /** One draw of the random source, `nextInt(10)`: an index into `Characters`. */
  type Draw = r: int | 0 <= r < 10

  predicate IsDigit(c: char) {
    '0' <= c <= '9'
  }

  /** The shape of every generated id: exactly four decimal digits. */
  predicate IsNumericId(s: string) {
    |s| == IdLength && forall i :: 0 <= i < |s| ==> IsDigit(s[i])
  }

  /** The digit alphabet in order: draw `r` selects the digit of value `r`. */
  lemma CharacterAt(r: Draw)
    ensures Characters[r] as int == '0' as int + r
  {
  }

  /** The string the generator builds from the given draws, one character per draw. */
  function Spell(draws: seq<Draw>): (s: string)
    ensures |s| == |draws|
    ensures forall i :: 0 <= i < |draws| ==> s[i] == Characters[draws[i]]
  {
    if draws == [] then "" else Spell(draws[..|draws| - 1]) + [Characters[draws[|draws| - 1]]]
  }

  /** Every character of a spelled id is a decimal digit. */
  lemma SpellIsDigits(draws: seq<Draw>)
    ensures forall i :: 0 <= i < |draws| ==> IsDigit(Spell(draws)[i])
  {
    forall i | 0 <= i < |draws| ensures IsDigit(Spell(draws)[i]) {
      CharacterAt(draws[i]);
    }
  }

  /** The id depends on the draws and on nothing else, and different draws
      give different ids: the generator consults no existing ids, so two
      items collide exactly when their draws coincide. */
  lemma SpellInjective(a: seq<Draw>, b: seq<Draw>)
    requires |a| == |b|
    ensures Spell(a) == Spell(b) <==> a == b
  {
    if Spell(a) == Spell(b) {
      forall i | 0 <= i < |a| ensures a[i] == b[i] {
        CharacterAt(a[i]);
        CharacterAt(b[i]);
        assert Spell(a)[i] == Spell(b)[i];
      }
    }
  }

  /** `idGenerator`: appends one character per draw to a builder. */
  method IdGenerator(draws: seq<Draw>) returns (generated: string)
    requires |draws| == IdLength
    ensures IsNumericId(generated)
    ensures generated == Spell(draws)
  {
    var builder := "";
    var i := 0;
    while i < IdLength
      invariant 0 <= i <= IdLength
      invariant builder == Spell(draws[..i])
    {
      assert draws[..i + 1][..i] == draws[..i];
      builder := builder + [Characters[draws[i]]];
      i := i + 1;
    }
    assert draws[..IdLength] == draws;
    SpellIsDigits(draws);
    generated := builder;
  }
}
