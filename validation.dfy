/**
 * The checkout form's client-side checks: `isValidEmail` asks for non-empty
 * runs of characters other than white space and `@`, separated by one `@` and
 * later a dot; `isValidPhone` deletes white space and hyphens and then asks for
 * nine or ten decimal digits and nothing else.
 */
module FormValidation {

  /** A character of the regular-expression class `\s`: ECMAScript white space and line terminators. */
  predicate IsJsWhitespace(c: char) {
    || c == '\t' || c == '\n' || c == '\U{B}' || c == '\U{C}' || c == '\r' || c == ' '
    || c == '\U{A0}' || c == '\U{1680}' || ('\U{2000}' <= c <= '\U{200A}')
    || c == '\U{2028}' || c == '\U{2029}' || c == '\U{202F}' || c == '\U{205F}'
    || c == '\U{3000}' || c == '\U{FEFF}'
  }

  /** The class `[^\s@]`. */
  predicate IsAddressChar(c: char) {
    !IsJsWhitespace(c) && c != '@'
  }

  // ---------------------------------------------------------------------------
  // isValidEmail

  /**
   * The whole string is local part, `@`, host, dot, top-level part: an `@` at `at` and a dot
   * at `dot` cut it into three non-empty runs, and every character but that `@`
   * (the dot included) is in `[^\s@]`.
   */
  predicate IsValidEmail(email: string) {
    exists at, dot ::
      && 0 < at && at + 1 < dot && dot + 1 < |email|
      && email[at] == '@' && email[dot] == '.'
      && forall k :: 0 <= k < |email| && k != at ==> IsAddressChar(email[k])
  }

  /** Three non-empty runs of `[^\s@]` joined by `@` and `.` form a valid address, and only those do. */
  lemma EmailFromParts(local: string, host: string, top: string)
    requires |local| > 0 && |host| > 0 && |top| > 0
    requires forall k :: 0 <= k < |local| ==> IsAddressChar(local[k])
    requires forall k :: 0 <= k < |host| ==> IsAddressChar(host[k])
    requires forall k :: 0 <= k < |top| ==> IsAddressChar(top[k])
    ensures IsValidEmail(local + "@" + host + "." + top)
  {
    var email := local + "@" + host + "." + top;
    var at, dot := |local|, |local| + 1 + |host|;
    assert email[at] == '@' && email[dot] == '.';
    forall k | 0 <= k < |email| && k != at ensures IsAddressChar(email[k]) {
      if k < at {
        assert email[k] == local[k];
      } else if k < dot {
        assert email[k] == host[k - at - 1];
      } else if k > dot {
        assert email[k] == top[k - dot - 1];
      }
    }
  }

  /** Every valid address is such a join: the part before its single `@` and the two sides of a dot after it. */
  lemma EmailToParts(email: string) returns (local: string, host: string, top: string)
    requires IsValidEmail(email)
    ensures email == local + "@" + host + "." + top
    ensures |local| > 0 && |host| > 0 && |top| > 0
    ensures forall k :: 0 <= k < |local| ==> IsAddressChar(local[k])
    ensures forall k :: 0 <= k < |host| ==> IsAddressChar(host[k])
    ensures forall k :: 0 <= k < |top| ==> IsAddressChar(top[k])
  {
    var at, dot :| && 0 < at && at + 1 < dot && dot + 1 < |email|
                   && email[at] == '@' && email[dot] == '.'
                   && forall k :: 0 <= k < |email| && k != at ==> IsAddressChar(email[k]);
    local, host, top := email[..at], email[at + 1..dot], email[dot + 1..];
    assert email == local + "@" + host + "." + top by {
      assert email == email[..at] + [email[at]] + email[at + 1..dot] + [email[dot]] + email[dot + 1..];
    }
    AddressRun(email, at, 0, at);
    AddressRun(email, at, at + 1, dot);
    AddressRun(email, at, dot + 1, |email|);
  }

  /** A stretch that avoids the `@` at `at` consists of address characters. */
  lemma AddressRun(email: string, at: int, lo: nat, hi: nat)
    requires lo <= hi <= |email| && !(lo <= at < hi)
    requires forall k :: 0 <= k < |email| && k != at ==> IsAddressChar(email[k])
    ensures forall k :: 0 <= k < hi - lo ==> IsAddressChar(email[lo..hi][k])
  {
    forall k | 0 <= k < hi - lo ensures IsAddressChar(email[lo..hi][k]) {
      assert email[lo..hi][k] == email[lo + k];
    }
  }

  /** White space anywhere makes the address invalid. */
  lemma EmailRejectsWhitespace(email: string, i: nat)
    requires i < |email| && IsJsWhitespace(email[i])
    ensures !IsValidEmail(email)
  {
  }

  /** Two `@` anywhere make the address invalid. */
  lemma EmailRejectsTwoAts(email: string, i: nat, j: nat)
    requires i < j < |email| && email[i] == '@' && email[j] == '@'
    ensures !IsValidEmail(email)
  {
  }

  /**
   * In a valid address the `@` is not first, and the text after it holds a dot
   * with at least one character on each side.
   */
  lemma EmailShape(email: string, at: nat)
    requires IsValidEmail(email) && at < |email| && email[at] == '@'
    ensures 0 < at && at + 3 < |email|
    ensures '.' in email[at + 2..|email| - 1]
  {
    var a, dot :| && 0 < a && a + 1 < dot && dot + 1 < |email|
                  && email[a] == '@' && email[dot] == '.'
                  && forall k :: 0 <= k < |email| && k != a ==> IsAddressChar(email[k]);
    assert a == at;
    assert email[at + 2..|email| - 1][dot - at - 2] == '.';
  }

  /** `a@b.c` is accepted. */
  lemma EmailAccepted()
    ensures IsValidEmail("a@b.c")
  {
    EmailFromParts("a", "b", "c");
    assert "a" + "@" + "b" + "." + "c" == "a@b.c";
  }

  /** `a@b`, `a@.b`, `a@b.` and `@b.c` are refused. */
  lemma EmailRefused()
    ensures !IsValidEmail("a@b")
    ensures !IsValidEmail("a@.b")
    ensures !IsValidEmail("a@b.")
    ensures !IsValidEmail("@b.c")
  {
  }

  // ---------------------------------------------------------------------------
  // isValidPhone

  /** What the separator deletion removes: white space and hyphens. */
  predicate IsSeparator(c: char) {
    IsJsWhitespace(c) || c == '-'
  }

  predicate IsAsciiDigit(c: char) {
    '0' <= c <= '9'
  }

  /** The phone number with every white-space character and hyphen deleted, the rest kept in order. */
  function StripSeparators(s: string): (r: string)
    ensures |r| <= |s|
  {
    if s == [] then []
    else (if IsSeparator(s[0]) then [] else [s[0]]) + StripSeparators(s[1..])
  }

  /** Stripping deletes every separator and keeps every other character. */
  lemma {:induction false} StripMembers(s: string)
    ensures forall c :: c in StripSeparators(s) <==> c in s && !IsSeparator(c)
  {
    if s != [] {
      StripMembers(s[1..]);
      assert s == [s[0]] + s[1..];
    }
  }

  /** `[0-9]*`, read one character at a time. */
  predicate AllDigits(s: string) {
    s == [] || (IsAsciiDigit(s[0]) && AllDigits(s[1..]))
  }

  lemma {:induction false} AllDigitsMeaning(s: string)
    ensures AllDigits(s) <==> forall k :: 0 <= k < |s| ==> IsAsciiDigit(s[k])
  {
    if s != [] {
      AllDigitsMeaning(s[1..]);
      assert forall k :: 0 <= k < |s[1..]| ==> s[1..][k] == s[k + 1];
    }
  }

  /** `isValidPhone`: after deleting separators, nine or ten ASCII digits and nothing else. */
  predicate IsValidPhone(phone: string) {
    var digits := StripSeparators(phone);
    9 <= |digits| <= 10 && AllDigits(digits)
  }

  lemma {:induction false} StripAppend(a: string, b: string)
    ensures StripSeparators(a + b) == StripSeparators(a) + StripSeparators(b)
  {
    if a == [] {
      assert a + b == b;
    } else {
      assert (a + b)[1..] == a[1..] + b;
      StripAppend(a[1..], b);
    }
  }

  /** A string without separators is left as it is. */
  lemma {:induction false} StripNothing(s: string)
    requires forall k :: 0 <= k < |s| ==> !IsSeparator(s[k])
    ensures StripSeparators(s) == s
  {
    if s != [] {
      var rest := s[1..];
      forall k | 0 <= k < |rest| ensures !IsSeparator(rest[k]) {
        assert rest[k] == s[k + 1];
      }
      StripNothing(rest);
      assert !IsSeparator(s[0]);
    }
  }

  /** Deleting separators twice is deleting them once, so the check may as well see the stripped text. */
  lemma PhoneIgnoresSeparators(phone: string)
    ensures StripSeparators(StripSeparators(phone)) == StripSeparators(phone)
    ensures IsValidPhone(StripSeparators(phone)) == IsValidPhone(phone)
  {
    var r := StripSeparators(phone);
    StripMembers(phone);
    assert forall k :: 0 <= k < |r| ==> r[k] in r;
    StripNothing(r);
  }

  /** A separator inserted anywhere does not change the verdict. */
  lemma PhoneSeparatorAnywhere(a: string, c: char, b: string)
    requires IsSeparator(c)
    ensures StripSeparators(a + [c] + b) == StripSeparators(a + b)
    ensures IsValidPhone(a + [c] + b) == IsValidPhone(a + b)
  {
    assert StripSeparators([c]) == [] by {
      assert [c][1..] == [];
    }
    StripAppend(a + [c], b);
    StripAppend(a, [c]);
    StripAppend(a, b);
    assert StripSeparators(a + [c]) == StripSeparators(a);
  }

  /** Any character other than a digit, white space or a hyphen (`+`, `(`, a letter) makes the number invalid. */
  lemma PhoneRejectsOtherChar(phone: string, i: nat)
    requires i < |phone| && !IsAsciiDigit(phone[i]) && !IsSeparator(phone[i])
    ensures !IsValidPhone(phone)
  {
    var digits := StripSeparators(phone);
    StripMembers(phone);
    assert phone[i] in phone;
    assert phone[i] in digits;
    AllDigitsMeaning(digits);
  }

  /** A string of digits only is valid exactly when it has nine or ten of them. */
  lemma PhoneDigitsOnly(phone: string)
    requires forall k :: 0 <= k < |phone| ==> IsAsciiDigit(phone[k])
    ensures IsValidPhone(phone) <==> 9 <= |phone| <= 10
  {
    StripNothing(phone);
    AllDigitsMeaning(phone);
  }

  /** Stated over the whole input: valid exactly when the separator-free text is nine or ten ASCII digits. */
  lemma PhoneMeaning(phone: string)
    ensures IsValidPhone(phone) <==>
            var digits := StripSeparators(phone);
            9 <= |digits| <= 10 && forall k :: 0 <= k < |digits| ==> IsAsciiDigit(digits[k])
  {
    AllDigitsMeaning(StripSeparators(phone));
  }

  /** Fewer than nine characters can never leave nine digits. */
  lemma PhoneTooShort(phone: string)
    requires |phone| < 9
    ensures !IsValidPhone(phone)
  {
  }

  /** `+66812345678` is refused for its plus sign, `12345678` for its length. */
  lemma PhoneRefused()
    ensures !IsValidPhone("+66812345678")
    ensures !IsValidPhone("12345678")
  {
    PhoneRejectsOtherChar("+66812345678", 0);
    PhoneTooShort("12345678");
  }
}
