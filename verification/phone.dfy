/**
 * Phone normalisation used at login and when a user edits their data:
 * surrounding whitespace is stripped, the separators " ()-" are removed,
 * and what is left must be digits, optionally after one leading '+'.
 */
module Phone {
  import opened Wrappers
  import opened Text

  /** The characters removed from a phone number, in the order they are removed. */
  const Separators := " ()-"

  /** A cleaned phone number: digits, or '+' followed by digits (at least one digit). */
  predicate IsPhoneNumber(d: string) {
    if |d| > 0 && d[0] == '+' then IsDigits(d[1..]) else IsDigits(d)
  }

  /**
   * What normalisation yields: `Some("")` for a missing or blank input, the
   * cleaned number when it has the right shape, `None` otherwise.
   */
  function PhoneNormalized(phone: Option<string>): (r: Option<string>)
    ensures phone.None? ==> r == Some("")
    ensures r.Some? && r.value != "" ==> IsPhoneNumber(r.value) && |r.value| <= |Strip(phone.GetOr(""))|
  {
    var text := Strip(phone.GetOr(""));
    if text == "" then Some("")
    else
      var digits := Without(text, Separators);
      if IsPhoneNumber(digits) then Some(digits) else None
  }

  /** Removing no characters leaves a string as it is. */
  lemma {:induction false} WithoutNothing(s: string, cs: string)
    requires forall i :: 0 <= i < |s| ==> s[i] !in cs
    ensures Without(s, cs) == s
  {
    if s != [] {
      WithoutNothing(s[..|s| - 1], cs);
    }
  }

  /** Removing the next separator extends the set of removed characters by one. */
  lemma RemoveNext(text: string, seps: string, i: nat)
    requires i < |seps|
    ensures RemoveChar(Without(text, seps[..i]), seps[i]) == Without(text, seps[..i + 1])
  {
    RemoveCharWithout(text, seps[..i], seps[i]);
    assert seps[..i + 1] == seps[..i] + [seps[i]];
  }

  /** The characters of a phone number: digits, and possibly a '+' in front. */
  lemma PhoneNumberChars(d: string)
    requires IsPhoneNumber(d)
    ensures d != []
    ensures forall i :: 0 <= i < |d| ==> IsDigit(d[i]) || (i == 0 && d[i] == '+')
  {
    if d[0] == '+' {
      assert forall i :: 1 <= i < |d| ==> d[i] == d[1..][i - 1];
    }
  }

  /** A character that is neither a digit nor a leading '+' rules a phone number out. */
  lemma NotPhoneNumber(d: string, k: nat)
    requires k < |d| && !IsDigit(d[k]) && (k > 0 || d[k] != '+')
    ensures !IsPhoneNumber(d)
  {
    if IsPhoneNumber(d) {
      PhoneNumberChars(d);
      assert false;
    }
  }

  /**
   * The source's procedure: strip, then `replace(ch, "")` for each
   * separator in turn, then check the shape.
   */
  method NormalizePhone(phone: Option<string>) returns (r: Option<string>)
    ensures r == PhoneNormalized(phone)
  {
    var digits := Strip(phone.GetOr(""));
    if digits == "" {
      return Some("");
    }
    ghost var text := digits;
    WithoutNothing(text, []);
    var i := 0;
    while i < |Separators|
      invariant 0 <= i <= |Separators|
      invariant digits == Without(text, Separators[..i])
    {
      RemoveNext(text, Separators, i);
      digits := RemoveChar(digits, Separators[i]);
      i := i + 1;
    }
    assert Separators[..i] == Separators;
    if |digits| > 0 && digits[0] == '+' {
      var rest := digits[1..];
      if !IsDigits(rest) {
        return None;
      }
    } else if !IsDigits(digits) {
      return None;
    }
    return Some(digits);
  }

  /** A blank or missing input normalises to the empty string, and only such an input does. */
  lemma PhoneBlank(phone: Option<string>)
    ensures PhoneNormalized(phone) == Some("") <==>
            phone.None? || forall k :: 0 <= k < |phone.value| ==> IsSpace(phone.value[k])
  {
    StripBlank(phone.GetOr(""));
  }

  /**
   * A non-empty result is a well-formed number: no separators, no
   * whitespace, digits with at most one leading '+'.
   */
  lemma PhoneResultShape(phone: Option<string>)
    requires PhoneNormalized(phone).Some? && PhoneNormalized(phone).value != ""
    ensures var d := PhoneNormalized(phone).value;
            IsPhoneNumber(d) && forall i :: 0 <= i < |d| ==> d[i] !in Separators && (IsDigit(d[i]) || (i == 0 && d[i] == '+'))
  {
    PhoneNumberChars(PhoneNormalized(phone).value);
  }

  /** An input with nothing to strip and no separators is only checked for its shape. */
  lemma CleanInput(d: string)
    requires d != [] && !IsSpace(d[0]) && !IsSpace(d[|d| - 1])
    requires forall i :: 0 <= i < |d| ==> d[i] !in Separators
    ensures PhoneNormalized(Some(d)) == if IsPhoneNumber(d) then Some(d) else None
  {
    assert Some(d).GetOr("") == d;
    StripUnchanged(d);
    assert Strip(d) == d;
    WithoutNothing(d, Separators);
    assert Without(d, Separators) == d;
  }

  /** Normalising a normalised number changes nothing. */
  lemma PhoneNormalizedIdempotent(phone: Option<string>)
    requires PhoneNormalized(phone).Some?
    ensures PhoneNormalized(Some(PhoneNormalized(phone).value)) == PhoneNormalized(phone)
  {
    var d := PhoneNormalized(phone).value;
    if d != "" {
      PhoneResultShape(phone);
      CleanInput(d);
    }
  }

  /** A lone '+' is refused: a '+' needs at least one digit after it. */
  lemma LonePlusRejected()
    ensures PhoneNormalized(Some("+")) == None
  {
    var plus := "+";
    assert |plus| == 1 && plus[0] == '+';
    assert !IsSpace('+') && '+' !in Separators;
    CleanInput(plus);
    assert !IsDigits(plus[1..]);
    assert !IsPhoneNumber(plus);
  }

  /** A string of separators only is refused: nothing is left to be a number. */
  lemma SeparatorsOnlyRejected()
    ensures PhoneNormalized(Some("()")) == None
  {
    StripUnchanged("()");
    assert Without("()"[..1], Separators) == "";
  }
}
