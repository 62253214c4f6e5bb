/**
 * The email field of `UserRegistrationForm` (accounts/forms.py): a required
 * email field, then `clean_email`, which lowercases the address and refuses
 * one that an existing account already uses, compared case-insensitively
 * (`email__iexact`).
 */
module Forms {
  import opened Wrappers
  import opened Text

  datatype EmailError =
    | Required      // blank submission on a required field
    | Invalid       // refused by the email address validator
    | AlreadyUsed   // "Un compte utilise déjà cet email."

  predicate SameIgnoringCase(a: string, b: string) {
    Lower(a) == Lower(b)
  }

  /** The `filter(email__iexact=email).exists()` query over the stored addresses. */
  function IsTaken(existing: seq<string>, email: string): (taken: bool)
    ensures taken <==> exists i :: 0 <= i < |existing| && SameIgnoringCase(existing[i], email)
  {
    if existing == [] then false
    else SameIgnoringCase(existing[0], email) || IsTaken(existing[1..], email)
  }

  /**
   * The whole field: the form field strips the submission and rejects a blank
   * one (required=True) or one the address validator refuses; `clean_email`
   * then lowercases it and refuses it if taken.
   */
  function CleanEmail(submitted: string, existing: seq<string>, validAddress: string -> bool): (r: Result<string, EmailError>)
    ensures r == Failure(Required) <==> AllSpace(submitted)
    ensures r == Failure(Invalid) <==> !AllSpace(submitted) && !validAddress(Strip(submitted))
    ensures r == Failure(AlreadyUsed) <==>
      && !AllSpace(submitted) && validAddress(Strip(submitted))
      && exists i :: 0 <= i < |existing| && SameIgnoringCase(existing[i], Strip(submitted))
    ensures r.Success? ==> r.value == Lower(Strip(submitted))
    ensures r.Success? ==> forall i :: 0 <= i < |existing| ==> !SameIgnoringCase(existing[i], r.value)
  {
    var value := Strip(submitted);
    if value == "" then Failure(Required)
    else if !validAddress(value) then Failure(Invalid)
    else
      var email := Lower(value);
      assert forall e :: SameIgnoringCase(e, email) == SameIgnoringCase(e, value) by {
        LowerIdempotent(value);
      }
      if IsTaken(existing, email) then Failure(AlreadyUsed)
      else Success(email)
  }

  /** No two stored addresses are equal ignoring case. */
  predicate DistinctIgnoringCase(emails: seq<string>) {
    forall i, j :: 0 <= i < j < |emails| ==> !SameIgnoringCase(emails[i], emails[j])
  }

  /** Registering an accepted address keeps the stored addresses case-insensitively distinct. */
  lemma AcceptedEmailKeepsDistinct(submitted: string, existing: seq<string>, validAddress: string -> bool)
    requires DistinctIgnoringCase(existing)
    requires CleanEmail(submitted, existing, validAddress).Success?
    ensures DistinctIgnoringCase(existing + [CleanEmail(submitted, existing, validAddress).value])
  {
    var all := existing + [CleanEmail(submitted, existing, validAddress).value];
    forall i, j | 0 <= i < j < |all| ensures !SameIgnoringCase(all[i], all[j]) {
      if j == |existing| {
        assert all[i] == existing[i];
      } else {
        assert all[i] == existing[i] && all[j] == existing[j];
      }
    }
  }

  /** Cleaning an accepted address again (against the same accounts) returns it unchanged. */
  lemma CleanEmailIdempotent(submitted: string, existing: seq<string>, validAddress: string -> bool)
    requires CleanEmail(submitted, existing, validAddress).Success?
    requires validAddress(CleanEmail(submitted, existing, validAddress).value)
    ensures CleanEmail(CleanEmail(submitted, existing, validAddress).value, existing, validAddress)
            == CleanEmail(submitted, existing, validAddress)
  {
    var value := Strip(submitted);
    var email := Lower(value);
    assert Stripped(email);
    StripKeepsStripped(email);
    LowerIdempotent(value);
    assert !AllSpace(email) by {
      assert !AllSpace(value);
      assert value != "" && !IsSpace(value[0]);
      assert !IsSpace(email[0]);
    }
  }
}
