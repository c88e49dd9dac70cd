/**
 * password_generator.py: a generator fixes a length and two flags; `generate`
 * builds the alphabet from Python's `string` constants and draws `length`
 * characters from it. The random draws are an input: `draws[i]` is the index
 * `random.choice` picked for the i-th character.
 */
module PasswordGen {

  /** `n` consecutive characters starting at `first`. */
  function CharRange(first: char, n: nat): (s: string)
    requires first as int + n <= 0x80
    ensures |s| == n
    ensures forall c :: c in s <==> first <= c && c as int < first as int + n
  {
    var s := seq(n, i requires 0 <= i < n => (first as int + i) as char);
    assert forall c :: first <= c && c as int < first as int + n ==> c in s by {
      forall c | first <= c && c as int < first as int + n ensures c in s {
        assert s[c as int - first as int] == c;
      }
    }
    s
  }

  /** `string.ascii_letters`: the lower-case letters, then the upper-case ones. */
  const AsciiLetters: string := CharRange('a', 26) + CharRange('A', 26)

  /** `string.digits`. */
  const Digits: string := CharRange('0', 10)

  /** `string.punctuation`: the printable ASCII characters that are neither letters, digits nor blank, in code order. */
  const Punctuation: string := CharRange('!', 15) + CharRange(':', 7) + CharRange('[', 6) + CharRange('{', 4)

  predicate IsAsciiLetter(c: char) { 'a' <= c <= 'z' || 'A' <= c <= 'Z' }

  predicate IsAsciiDigit(c: char) { '0' <= c <= '9' }

  predicate IsAsciiPunctuation(c: char)
  {
    '!' <= c <= '~' && !IsAsciiLetter(c) && !IsAsciiDigit(c)
  }

  /** The three constants hold exactly the characters their names say. */
  lemma ConstantsAsInPython()
    ensures |AsciiLetters| == 52 && |Digits| == 10 && |Punctuation| == 32
    ensures forall c :: c in AsciiLetters <==> IsAsciiLetter(c)
    ensures forall c :: c in Digits <==> IsAsciiDigit(c)
    ensures forall c :: c in Punctuation <==> IsAsciiPunctuation(c)
  {
  }

  /** `PasswordGenerator(length=12, use_digits=True, use_special_chars=True)`. */
  datatype PasswordGenerator = PasswordGenerator(length: int := 12, useDigits: bool := true, useSpecialChars: bool := true)
  {
    /** The `characters` that `generate` draws from. */
    function Characters(): (a: string)
      ensures forall c :: IsAsciiLetter(c) ==> c in a
      ensures forall c :: IsAsciiDigit(c) ==> (c in a <==> useDigits)
      ensures forall c :: IsAsciiPunctuation(c) ==> (c in a <==> useSpecialChars)
      ensures forall c :: c in a ==> IsAsciiLetter(c) || IsAsciiDigit(c) || IsAsciiPunctuation(c)
      ensures |a| == 52 + (if useDigits then 10 else 0) + (if useSpecialChars then 32 else 0)
    {
      ConstantsAsInPython();
      var letters := AsciiLetters;
      var withDigits := if useDigits then letters + Digits else letters;
      if useSpecialChars then withDigits + Punctuation else withDigits
    }

    /** How many characters `range(self.length)` asks for. */
    function Count(): nat
    {
      if length <= 0 then 0 else length
    }

    /** Draws `random.choice` may make: one index into the alphabet per character. */
    predicate ValidDraws(draws: seq<nat>)
    {
      |draws| == Count() && forall i :: 0 <= i < |draws| ==> draws[i] < |Characters()|
    }

    /** `generate()`, given the draws. */
    function Generate(draws: seq<nat>): (p: string)
      requires ValidDraws(draws)
      ensures |p| == (if length <= 0 then 0 else length)
      ensures forall i :: 0 <= i < |p| ==> p[i] in Characters()
    {
      var alphabet := Characters();
      seq(|draws|, i requires 0 <= i < |draws| => alphabet[draws[i]])
    }
  }

  /** Every character of a generated password comes from the letters or an enabled class. */
  lemma GeneratedCharacters(g: PasswordGenerator, draws: seq<nat>)
    requires g.ValidDraws(draws)
    ensures forall c :: c in g.Generate(draws) ==>
      IsAsciiLetter(c) || (g.useDigits && IsAsciiDigit(c)) || (g.useSpecialChars && IsAsciiPunctuation(c))
  {
    var p := g.Generate(draws);
    forall c | c in p
      ensures IsAsciiLetter(c) || (g.useDigits && IsAsciiDigit(c)) || (g.useSpecialChars && IsAsciiPunctuation(c))
    {
      var i :| 0 <= i < |p| && p[i] == c;
      assert c in g.Characters();
    }
  }

  /** With both flags off, a generated password holds ASCII letters only. */
  lemma LettersOnlyWithoutFlags(g: PasswordGenerator, draws: seq<nat>)
    requires !g.useDigits && !g.useSpecialChars && g.ValidDraws(draws)
    ensures forall i :: 0 <= i < |g.Generate(draws)| ==> IsAsciiLetter(g.Generate(draws)[i])
  {
    GeneratedCharacters(g, draws);
  }

  /** The position of `c` in `a`. */
  function IndexOf(a: string, c: char): (k: nat)
    requires c in a
    ensures k < |a| && a[k] == c
  {
    if a[0] == c then 0 else 1 + IndexOf(a[1..], c)
  }

  /** The draws that make `generate` return `p`. */
  function DrawsFor(a: string, p: string): (draws: seq<nat>)
    requires forall i :: 0 <= i < |p| ==> p[i] in a
    ensures |draws| == |p|
    ensures forall i :: 0 <= i < |p| ==> draws[i] < |a| && a[draws[i]] == p[i]
  {
    seq(|p|, i requires 0 <= i < |p| => IndexOf(a, p[i]))
  }

  /**
   * Every password of the right length over the alphabet is a possible output:
   * the draws that spell it make `generate` return exactly it.
   */
  lemma EveryPasswordIsReachable(g: PasswordGenerator, p: string)
    requires |p| == g.Count()
    requires forall i :: 0 <= i < |p| ==> p[i] in g.Characters()
    ensures g.ValidDraws(DrawsFor(g.Characters(), p))
    ensures g.Generate(DrawsFor(g.Characters(), p)) == p
  {
  }
}
