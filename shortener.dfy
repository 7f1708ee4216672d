/**
 * The older shortening flow of `shortener.py` (the MySQL version), run
 * against the same store model: `Database().get_last_record` is
 * Crud.RedirectTable.LastRedirect and `Database().create_record` is
 * Crud.RedirectTable.CreateRedirect. The `Shortener` class has no fields, so
 * its methods are modelled as module-level members.
 */
module Shortener {
  import opened Wrappers
  import opened Codec
  import opened Models
  import opened Settings
  import Crud
  import Shorten

  /**
   * `URLNotAvailableError`; StoreFailure is the IntegrityError that the
   * corrected update lets through instead of swallowing it.
   */
  datatype ShortenerError = UrlNotAvailable | StoreFailure

  /** `Shortener.validate_user_suffix`: the same rule as the SQLAlchemy version. */
  function ValidateUserSuffix(suffix: string): (ok: bool)
    ensures ok == Shorten.ValidateUserSuffix(suffix)
  {
    if |suffix| != AutoSuffixLen then
      true
    else
      match Decode(suffix)
      case None => true
      case Some(_) => false
  }

  /**
   * The cases test_main.py checks: punctuation, an over-long suffix, and an
   * encoded id; plus punctuation of exactly the auto width, which is accepted
   * only because it does not decode. The encoded-id case needs
   * `AutoSuffixLen >= 4`, so that 789087 fits the width.
   */
  lemma UserValidationExamples()
    ensures ValidateUserSuffix("!$*&^%$")
    ensures ValidateUserSuffix(seq(AutoSuffixLen, _ => '!'))
    ensures ValidateUserSuffix(seq(AutoSuffixLen + 1, _ => 'g'))
    ensures !ValidateUserSuffix(Encode(789087, AutoSuffixLen))
  {
  }

  /** `Shortener.generate_suffix`: the same suffix as the SQLAlchemy version on the same table. */
  function GenerateSuffix(table: Crud.RedirectTable): (suffix: string)
    reads table
    requires table.Valid()
    ensures suffix == Shorten.GenerateSuffix(table)
  {
    var last := table.LastRedirect();
    var newId := if last.None? then 1 else last.value.id + 1;
    Encode(newId, AutoSuffixLen)
  }

  /**
   * `Shortener.update_db`, as written: False exactly when the insert hits the
   * unique suffix index. Any other integrity failure is swallowed and reported
   * as True although nothing was stored.
   */
  method UpdateDb(table: Crud.RedirectTable, suffix: string, target: string,
                  today: int, otherFailure: bool)
    returns (ok: bool)
    requires table.Valid()
    modifies table
    ensures table.Valid()
    ensures ok <==> suffix !in old(Suffixes(table.records))
    ensures !ok || otherFailure ==> unchanged(table)
    ensures ok && !otherFailure ==>
              && table.records == old(table.records) + [Redirect(old(table.nextId), suffix, target, today)]
              && table.nextId == old(table.nextId) + 1
  {
    var created := table.CreateRedirect(target, suffix, today, otherFailure);
    ok := !(created.Failure? && created.error == DuplicateSuffix);
  }

  /**
   * `Shortener.execute`, as written: a rejected user suffix fails before any
   * write; otherwise it fails exactly when UpdateDb reports False, and
   * returns `BASE_URL/suffix` when UpdateDb reports True, including after a
   * swallowed integrity failure that stored nothing.
   */
  method Execute(table: Crud.RedirectTable, target: string, suffix: Option<string>,
                 today: int, otherFailure: bool)
    returns (r: Result<string, ShortenerError>)
    requires table.Valid()
    modifies table
    ensures table.Valid()
    ensures suffix.Some? && !ValidateUserSuffix(suffix.value) ==>
              r == Failure(UrlNotAvailable) && unchanged(table)
    ensures suffix.None? || ValidateUserSuffix(suffix.value) ==>
              var s := if suffix.Some? then suffix.value else old(GenerateSuffix(table));
              && (r.Success? <==> s !in old(Suffixes(table.records)))
              && (r.Success? ==> r.value == BaseUrl + "/" + s)
              && (r.Success? && !otherFailure ==>
                    && table.records == old(table.records) + [Redirect(old(table.nextId), s, target, today)]
                    && table.nextId == old(table.nextId) + 1
                    && table.RedirectUrl(s) == Some(target))
              && (r.Success? && otherFailure ==> unchanged(table) && table.RedirectUrl(s).None?)
              && (r.Failure? ==> r.error == UrlNotAvailable && unchanged(table))
    ensures Shorten.AutoSuffixesIssued(old(table.records)) ==> Shorten.AutoSuffixesIssued(table.records)
  {
    var claimed: string;
    if suffix.Some? {
      if !ValidateUserSuffix(suffix.value) {
        return Failure(UrlNotAvailable);
      }
      claimed := suffix.value;
    } else {
      claimed := GenerateSuffix(table);
    }
    var ok := UpdateDb(table, claimed, target, today, otherFailure);
    if !ok {
      return Failure(UrlNotAvailable);
    }
    r := Success(BaseUrl + "/" + claimed);
  }

  /**
   * The swallowed failure, on a concrete run: on an empty table whose insert
   * of `google_pls` is refused for a reason other than the suffix index,
   * Execute returns a short URL that resolves to nothing.
   */
  method DanglingShortUrl() returns (url: Result<string, ShortenerError>, resolved: Option<string>)
    ensures url == Success(BaseUrl + "/" + "google_pls")
    ensures resolved == None
  {
    var table := new Crud.RedirectTable();
    assert Decode("google_pls").None? by {
      assert !IsDigitChar("google_pls"[6]);
    }
    assert Suffixes(table.records) == {};
    url := Execute(table, "https://google.com", Some("google_pls"), 0, true);
    resolved := table.RedirectUrl("google_pls");
  }

  /**
   * `update_db` with the evident intent restored: False on a duplicate
   * suffix, True only when the record was stored, and any other integrity
   * failure passed on to the caller as StoreFailure.
   */
  method UpdateDbChecked(table: Crud.RedirectTable, suffix: string, target: string,
                         today: int, otherFailure: bool)
    returns (r: Result<bool, ShortenerError>)
    requires table.Valid()
    modifies table
    ensures table.Valid()
    ensures r == Success(false) <==> suffix in old(Suffixes(table.records))
    ensures r == Failure(StoreFailure) <==> suffix !in old(Suffixes(table.records)) && otherFailure
    ensures r == Success(true) <==> suffix !in old(Suffixes(table.records)) && !otherFailure
    ensures r == Success(true) ==>
              && table.records == old(table.records) + [Redirect(old(table.nextId), suffix, target, today)]
              && table.nextId == old(table.nextId) + 1
              && table.RedirectUrl(suffix) == Some(target)
    ensures r != Success(true) ==> unchanged(table)
  {
    var created := table.CreateRedirect(target, suffix, today, otherFailure);
    match created
    case Success(_) => r := Success(true);
    case Failure(DuplicateSuffix) => r := Success(false);
    case Failure(OtherIntegrity) => r := Failure(StoreFailure);
  }

  /**
   * `execute` over the corrected update: every short URL it returns resolves
   * to its target; a duplicate suffix is UrlNotAvailable and any other
   * integrity failure is StoreFailure, both with the table unchanged.
   */
  method ExecuteChecked(table: Crud.RedirectTable, target: string, suffix: Option<string>,
                        today: int, otherFailure: bool)
    returns (r: Result<string, ShortenerError>)
    requires table.Valid()
    modifies table
    ensures table.Valid()
    ensures suffix.Some? && !ValidateUserSuffix(suffix.value) ==>
              r == Failure(UrlNotAvailable) && unchanged(table)
    ensures suffix.None? || ValidateUserSuffix(suffix.value) ==>
              var s := if suffix.Some? then suffix.value else old(GenerateSuffix(table));
              && (r.Success? <==> s !in old(Suffixes(table.records)) && !otherFailure)
              && (r.Success? ==>
                    && r.value == BaseUrl + "/" + s
                    && table.records == old(table.records) + [Redirect(old(table.nextId), s, target, today)]
                    && table.nextId == old(table.nextId) + 1
                    && table.RedirectUrl(s) == Some(target))
              && (r == Failure(StoreFailure) <==> s !in old(Suffixes(table.records)) && otherFailure)
              && (r.Failure? ==> unchanged(table))
    ensures Shorten.AutoSuffixesIssued(old(table.records)) ==> Shorten.AutoSuffixesIssued(table.records)
  {
    var claimed: string;
    if suffix.Some? {
      if !ValidateUserSuffix(suffix.value) {
        return Failure(UrlNotAvailable);
      }
      claimed := suffix.value;
    } else {
      claimed := GenerateSuffix(table);
    }
    var stored := UpdateDbChecked(table, claimed, target, today, otherFailure);
    match stored
    case Failure(e) => r := Failure(e);
    case Success(false) => r := Failure(UrlNotAvailable);
    case Success(true) => r := Success(BaseUrl + "/" + claimed);
  }
}
