/**
 * The shortening flow of `shorten.py` (the SQLAlchemy version): validate a
 * user's suffix or generate one from the last stored id, claim it by inserting
 * a record, and build the short URL.
 */
module Shorten {
  import opened Wrappers
  import opened Codec
  import opened Models
  import opened Settings
  import Crud

  /** `URLNotAvailableError`. */
  datatype ShortenError = UrlNotAvailable

  /**
   * `validate_user_suffix`: a suffix of another width than the auto-suffix
   * width is accepted, and so is one of that width that does not decode; one
   * that decodes is refused. Equivalently, a suffix is accepted exactly when
   * no id that fits the width is encoded as it: the auto-suffix space is
   * reserved, whether or not an id was ever issued.
   */
  function ValidateUserSuffix(suffix: string): (ok: bool)
    ensures ok <==> forall n: nat :: n < Capacity(AutoSuffixLen) ==> suffix != Encode(n, AutoSuffixLen)
  {
    assert forall n: nat :: n < Capacity(AutoSuffixLen) && suffix == Encode(n, AutoSuffixLen) ==>
                 |suffix| == AutoSuffixLen && Decode(suffix).Some? by {
      forall n: nat | n < Capacity(AutoSuffixLen) && suffix == Encode(n, AutoSuffixLen)
        ensures |suffix| == AutoSuffixLen && Decode(suffix).Some?
      {
        EncodeLength(n, AutoSuffixLen);
        DecodeEncode(n, AutoSuffixLen);
      }
    }
    assert |suffix| == AutoSuffixLen && Decode(suffix).Some? ==>
                       var n := Decode(suffix).value;
                       n < Capacity(AutoSuffixLen) && suffix == Encode(n, AutoSuffixLen) by {
      if |suffix| == AutoSuffixLen && Decode(suffix).Some? {
        EncodeDecode(suffix);
        EncodeLength(Decode(suffix).value, AutoSuffixLen);
      }
    }
    if |suffix| != AutoSuffixLen then
      true
    else
      match Decode(suffix)
      case None => true
      case Some(_) => false
  }

  /**
   * Past the capacity of the auto-suffix width, generated suffixes grow
   * longer and leave the reserved space: validation would accept them from a
   * user.
   */
  lemma AutoSuffixBeyondCapacityAccepted(n: nat)
    requires n >= Capacity(AutoSuffixLen)
    ensures ValidateUserSuffix(Encode(n, AutoSuffixLen))
  {
    EncodeLength(n, AutoSuffixLen);
  }

  /**
   * `generate_suffix`: the encoding of 1 on an empty table, otherwise of the
   * newest record's id plus one. It decodes to an id above every stored one.
   */
  function GenerateSuffix(table: Crud.RedirectTable): (suffix: string)
    reads table
    requires table.Valid()
    ensures table.records == [] ==> suffix == Encode(1, AutoSuffixLen)
    ensures forall last :: IsNewest(table.records, last) ==> suffix == Encode(last.id + 1, AutoSuffixLen)
    ensures Decode(suffix).Some?
    ensures forall rec :: rec in table.records ==> rec.id < Decode(suffix).value
    ensures Decode(suffix).value <= table.nextId
    ensures |suffix| == AutoSuffixLen <==> Decode(suffix).value < Capacity(AutoSuffixLen)
  {
    var newId := match table.LastRedirect()
      case None => 1
      case Some(last) => last.id + 1;
    assert newId <= table.nextId by {
      if table.records != [] {
        assert table.records[|table.records| - 1].id < table.nextId;
      }
    }
    DecodeEncode(newId, AutoSuffixLen);
    EncodeLength(newId, AutoSuffixLen);
    Encode(newId, AutoSuffixLen)
  }

  /**
   * Every stored suffix of the auto width that decodes names an id no greater
   * than its own record's. Both Execute methods keep this, and so does
   * DeleteRedirects, which only removes records.
   */
  ghost predicate AutoSuffixesIssued(rs: seq<Redirect>) {
    forall rec :: rec in rs && |rec.suffix| == AutoSuffixLen && Decode(rec.suffix).Some? ==>
      Decode(rec.suffix).value <= rec.id
  }

  /**
   * Without concurrent writers, a generated suffix is never taken yet, as
   * long as the next key fits the auto-suffix width: the only collision
   * source left is the race between concurrent requests.
   */
  lemma GeneratedSuffixIsFresh(table: Crud.RedirectTable)
    requires table.Valid() && AutoSuffixesIssued(table.records)
    requires table.nextId < Capacity(AutoSuffixLen)
    ensures GenerateSuffix(table) !in Suffixes(table.records)
  {
  }

  /**
   * `execute`: a rejected user suffix fails with UrlNotAvailable before any
   * write. Otherwise the user's suffix, or the generated one, is claimed by a
   * single insert; any integrity failure of that insert becomes
   * UrlNotAvailable with the table unchanged, and nothing is retried. On
   * success exactly one record is added and the result is
   * `APP_HOST:APP_PORT/suffix`.
   */
  method Execute(table: Crud.RedirectTable, target: string, suffix: Option<string>,
                 today: int, otherFailure: bool)
    returns (r: Result<string, ShortenError>)
    requires table.Valid()
    modifies table
    ensures table.Valid()
    ensures suffix.Some? && !ValidateUserSuffix(suffix.value) ==>
              r == Failure(UrlNotAvailable) && unchanged(table)
    ensures suffix.None? || ValidateUserSuffix(suffix.value) ==>
              var s := if suffix.Some? then suffix.value else old(GenerateSuffix(table));
              && (r.Success? <==> s !in old(Suffixes(table.records)) && !otherFailure)
              && (r.Success? ==>
                    && r.value == AppHost + ":" + AppPort + "/" + s
                    && table.records == old(table.records) + [Redirect(old(table.nextId), s, target, today)]
                    && table.nextId == old(table.nextId) + 1
                    && table.RedirectUrl(s) == Some(target))
              && (r.Failure? ==> r.error == UrlNotAvailable && unchanged(table))
    ensures AutoSuffixesIssued(old(table.records)) ==> AutoSuffixesIssued(table.records)
    ensures (suffix.None? && !otherFailure && AutoSuffixesIssued(old(table.records)) &&
             old(table.nextId) < Capacity(AutoSuffixLen)) ==> r.Success?
  {
    ghost var before := table.records;
    if suffix.None? && AutoSuffixesIssued(before) && table.nextId < Capacity(AutoSuffixLen) {
      GeneratedSuffixIsFresh(table);
    }
    var claimed: string;
    if suffix.Some? {
      if !ValidateUserSuffix(suffix.value) {
        return Failure(UrlNotAvailable);
      }
      claimed := suffix.value;
    } else {
      claimed := GenerateSuffix(table);
    }
    var created := table.CreateRedirect(target, claimed, today, otherFailure);
    if created.Failure? {
      return Failure(UrlNotAvailable);
    }
    r := Success(AppHost + ":" + AppPort + "/" + claimed);
  }
}
