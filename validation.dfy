/**
 * Character validation: whitespace is deleted, every remaining character
 * must be a CJK unified ideograph (U+4E00 to U+9FFF) or punctuation, and the
 * result is converted from simplified to traditional script.
 */
module Validation {
  import opened Wrappers
  import opened Seqs
  import opened PyStr

  /**
   * The two foreign tables the pipeline consults: whether the Unicode
   * general category of a character starts with "P", and the
   * simplified-to-traditional conversion of a whole string.
   */
  datatype Unicode = Unicode(isPunctuation: char -> bool, toTraditional: string -> string)

  /** The character class `[一-鿿]`. */
  predicate IsIdeograph(c: char)
  {
    '\U{4E00}' <= c <= '\U{9FFF}'
  }

  predicate Allowed(c: char, u: Unicode)
  {
    IsIdeograph(c) || u.isPunctuation(c)
  }

  /** `validate`: `None` is the raised `ValueError`. */
  function Validate(characters: string, u: Unicode): (r: Option<string>)
    ensures r.Some? <==>
      forall i :: 0 <= i < |characters| && !IsSpace(characters[i]) ==> Allowed(characters[i], u)
    ensures r.Some? ==> r.value == u.toTraditional(RemoveWhitespace(characters))
  {
    var kept := RemoveWhitespace(characters);
    FilterMembers(characters, IsNotSpace);
    if forall i :: 0 <= i < |kept| ==> Allowed(kept[i], u) then Some(u.toTraditional(kept)) else None
  }

  /** Stripping the input first, as the request handler does, does not change the verdict or the value. */
  lemma ValidateAfterStrip(characters: string, u: Unicode)
    ensures Validate(Strip(characters), u) == Validate(characters, u)
  {
    RemoveWhitespaceAfterStrip(characters);
  }

  /** One character that is neither whitespace, an ideograph nor punctuation rejects the whole string. */
  lemma OneBadCharacterRejects(before: string, c: char, after: string, u: Unicode)
    requires !IsSpace(c) && !Allowed(c, u)
    ensures Validate(before + [c] + after, u).None?
  {
    assert (before + [c] + after)[|before|] == c;
  }
}
