/** The three field validators: isValidID, isValidPhone and isValidEmail.
    Each scan is written the way the C loop runs, and a lemma beside it
    states, over all inputs, which strings it accepts. */
module Validators {
  import opened Strings

  // ---------------------------------------------------------------- ID

  /** The loop `for (i = 0; i < 3; i++) if (!isdigit(id[i])) return 0;` from index i on */
  function IdDigitsFrom(id: string, i: nat): bool
    requires i <= 3 <= |id|
    decreases 3 - i
  {
    i == 3 || (IsDigit(id[i]) && IdDigitsFrom(id, i + 1))
  }

  /** isValidID: strlen is 3, then the digit loop */
  function IsValidID(id: string): bool {
    |id| == 3 && IdDigitsFrom(id, 0)
  }

  lemma {:induction false} IdDigitsFromMeaning(id: string, i: nat)
    requires i <= 3 <= |id|
    ensures IdDigitsFrom(id, i) <==> forall k :: i <= k < 3 ==> IsDigit(id[k])
    decreases 3 - i
  {
    if i < 3 {
      IdDigitsFromMeaning(id, i + 1);
    }
  }

  /** An ID is accepted exactly when it is three decimal digits */
  lemma IsValidIDMeaning(id: string)
    ensures IsValidID(id) <==> |id| == 3 && forall k :: 0 <= k < |id| ==> IsDigit(id[k])
  {
    if |id| == 3 {
      IdDigitsFromMeaning(id, 0);
    }
  }

  // ---------------------------------------------------------------- phone

  /** What the loop body demands of index i: a dash at 2 and 6, a digit elsewhere */
  predicate PhoneCharOk(phone: string, i: nat)
    requires i < |phone|
  {
    if i == 2 || i == 6 then phone[i] == '-' else IsDigit(phone[i])
  }

  /** The loop `for (i = 0; i < len; i++)` of isValidPhone, from index i on */
  function PhoneCharsFrom(phone: string, i: nat): bool
    requires i <= |phone|
    decreases |phone| - i
  {
    i == |phone| || (PhoneCharOk(phone, i) && PhoneCharsFrom(phone, i + 1))
  }

  /** isValidPhone: the length check, the dash-at-2-or-3 check, then the loop */
  function IsValidPhone(phone: string): bool {
    && 11 <= |phone| <= 13
    && (phone[2] == '-' || phone[3] == '-')
    && PhoneCharsFrom(phone, 0)
  }

  lemma {:induction false} PhoneCharsFromMeaning(phone: string, i: nat)
    requires i <= |phone|
    ensures PhoneCharsFrom(phone, i) <==> forall k :: i <= k < |phone| ==> PhoneCharOk(phone, k)
    decreases |phone| - i
  {
    if i < |phone| {
      PhoneCharsFromMeaning(phone, i + 1);
    }
  }

  /** A phone number is accepted exactly when it has 11 to 13 characters, dashes at
      indices 2 and 6 and digits everywhere else: the shape XX-XXX-XXXX followed by
      up to two more digits. The dash-at-2-or-3 test adds nothing to the loop. */
  lemma IsValidPhoneMeaning(phone: string)
    ensures IsValidPhone(phone) <==>
      && 11 <= |phone| <= 13
      && phone[2] == '-' && phone[6] == '-'
      && forall k :: 0 <= k < |phone| && k != 2 && k != 6 ==> IsDigit(phone[k])
  {
    PhoneCharsFromMeaning(phone, 0);
    if 11 <= |phone| <= 13 && PhoneCharsFrom(phone, 0) {
      assert PhoneCharOk(phone, 2) && PhoneCharOk(phone, 6);
      forall k | 0 <= k < |phone| && k != 2 && k != 6 ensures IsDigit(phone[k]) {
        assert PhoneCharOk(phone, k);
      }
    }
  }

  /** The last character of an accepted phone number is a digit, so a buffer that
      still carries its newline terminator is never accepted */
  lemma PhoneWithNewlineRejected(phone: string)
    requires |phone| > 0 && phone[|phone| - 1] == '\n'
    ensures !IsValidPhone(phone)
  {
    IsValidPhoneMeaning(phone);
  }

  /** The documented example is accepted; the documented XXX-XXXX-XXXX grouping is not */
  lemma PhoneExamples()
    ensures IsValidPhone("12-345-6789")
    ensures IsValidPhone("12-345-67890")
    ensures !IsValidPhone("123-45-6789")
    ensures !IsValidPhone("123-4567-8901")
  {
    IsValidPhoneMeaning("12-345-6789");
    IsValidPhoneMeaning("12-345-67890");
    IsValidPhoneMeaning("123-45-6789");
    IsValidPhoneMeaning("123-4567-8901");
    assert "123-45-6789"[2] == '3';
    assert "123-4567-8901"[2] == '3';
  }

  // ---------------------------------------------------------------- email

  /** isValidEmail: at = strchr(email, '@'), dot = strrchr(email, '.'), and
      at && dot && at < dot && dot - at > 1 && strlen(dot) > 1 */
  function IsValidEmail(email: string): bool {
    var at := FirstIndex(email, '@');
    var dot := LastIndex(email, '.');
    && at.Some? && dot.Some?
    && at.value < dot.value
    && dot.value - at.value > 1
    && |email| - dot.value > 1
  }

  /** An email is accepted exactly when some '@' is followed, after at least one
      character, by a '.' that is the last '.' and is not the last character */
  lemma IsValidEmailMeaning(email: string)
    ensures IsValidEmail(email) <==>
      exists i, j :: 0 <= i && i + 1 < j && j + 1 < |email|
        && email[i] == '@' && email[j] == '.' && '.' !in email[j + 1..]
  {
    var at := FirstIndex(email, '@');
    var dot := LastIndex(email, '.');
    if IsValidEmail(email) {
      var i, j := at.value, dot.value;
      assert email[i] == '@' && email[j] == '.' && '.' !in email[j + 1..];
    }
    if exists i, j :: 0 <= i && i + 1 < j && j + 1 < |email|
        && email[i] == '@' && email[j] == '.' && '.' !in email[j + 1..]
    {
      var i, j :| 0 <= i && i + 1 < j && j + 1 < |email|
        && email[i] == '@' && email[j] == '.' && '.' !in email[j + 1..];
      assert at.Some? by { assert email[i] in email; }
      assert at.value <= i;
      assert dot.Some? by { assert email[j] in email; }
      assert dot.value == j;
    }
  }

  lemma EmailExamples()
    ensures IsValidEmail("a@b.com")
    ensures !IsValidEmail("a@b")
    ensures !IsValidEmail("ab.com")
    ensures !IsValidEmail("a@.com")
  {
    assert FirstIndex("a@b.com", '@') == Some(1);
    assert LastIndex("a@b.com", '.') == Some(3);
    assert '.' !in "a@b";
    assert '@' !in "ab.com";
    assert FirstIndex("a@.com", '@') == Some(1);
    assert LastIndex("a@.com", '.') == Some(2);
  }

  /** A trailing newline counts as the character after the last dot, so "a@b.\n" is
      accepted while "a@b." is not */
  lemma EmailNewlineQuirk()
    ensures IsValidEmail("a@b.\n")
    ensures !IsValidEmail("a@b.")
  {
    assert FirstIndex("a@b.\n", '@') == Some(1);
    assert LastIndex("a@b.\n", '.') == Some(3);
    assert LastIndex("a@b.", '.') == Some(3);
  }
}
