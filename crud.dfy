/**
 * The redirect store of `crud.py`, held in memory. A session's `add`/`commit`
 * becomes one atomic step on the table: the insert succeeds or the table is
 * left as it was.
 */
module Crud {
  import opened Wrappers
  import opened Models

  /** Any two records with the same suffix are the same record. */
  lemma SuffixDeterminesRecord(rs: seq<Redirect>)
    requires SuffixesUnique(rs)
    ensures forall a, b :: a in rs && b in rs && a.suffix == b.suffix ==> a == b
  {
  }

  /** The first record, in storage order, whose suffix is exactly `suffix`. */
  function FindBySuffix(rs: seq<Redirect>, suffix: string): (r: Option<Redirect>)
    ensures r.Some? ==> r.value in rs && r.value.suffix == suffix
    ensures r.None? <==> suffix !in Suffixes(rs)
  {
    if rs == [] then None
    else if rs[0].suffix == suffix then Some(rs[0])
    else
      assert Suffixes(rs) == {rs[0].suffix} + Suffixes(rs[1..]) by {
        assert rs == [rs[0]] + rs[1..];
      }
      FindBySuffix(rs[1..], suffix)
  }

  /** Appending a record with a new suffix makes it the one found under that suffix and hides nothing else. */
  lemma {:induction false} FindAfterAppend(rs: seq<Redirect>, rec: Redirect, suffix: string)
    requires rec.suffix !in Suffixes(rs)
    ensures FindBySuffix(rs + [rec], suffix) ==
              if suffix == rec.suffix then Some(rec) else FindBySuffix(rs, suffix)
  {
    if rs != [] {
      assert (rs + [rec])[1..] == rs[1..] + [rec];
      assert rs[0] in rs;
      assert rec.suffix !in Suffixes(rs[1..]) by {
        forall other | other in rs[1..] ensures other.suffix != rec.suffix {
          assert other in rs;
        }
      }
      FindAfterAppend(rs[1..], rec, suffix);
    }
  }

  /** Appending a record under the next key with a new suffix keeps the key and index constraints. */
  lemma AppendKeepsConstraints(rs: seq<Redirect>, rec: Redirect, nextId: nat)
    requires IdsAssigned(rs, nextId) && SuffixesUnique(rs)
    requires rec.id == nextId >= 1 && rec.suffix !in Suffixes(rs)
    ensures IdsAssigned(rs + [rec], nextId + 1) && SuffixesUnique(rs + [rec])
  {
  }

  /** The records created on or after `day`, in their original order. */
  function KeepFrom(rs: seq<Redirect>, day: int): (kept: seq<Redirect>)
    ensures forall rec :: rec in kept <==> rec in rs && rec.createdOn >= day
    ensures |kept| <= |rs|
  {
    if rs == [] then []
    else if rs[0].createdOn >= day then [rs[0]] + KeepFrom(rs[1..], day)
    else KeepFrom(rs[1..], day)
  }

  /** Removing records keeps the key and index constraints of those that remain. */
  lemma {:induction false} KeepFromPreserves(rs: seq<Redirect>, nextId: nat, day: int)
    requires IdsAssigned(rs, nextId) && SuffixesUnique(rs)
    ensures IdsAssigned(KeepFrom(rs, day), nextId) && SuffixesUnique(KeepFrom(rs, day))
  {
    if rs != [] {
      var tail := rs[1..];
      assert IdsAssigned(tail, nextId) && SuffixesUnique(tail);
      KeepFromPreserves(tail, nextId, day);
      if rs[0].createdOn >= day {
        var rest := KeepFrom(tail, day);
        var kept := [rs[0]] + rest;
        forall j | 0 < j < |kept|
          ensures rs[0].id < kept[j].id && rs[0].suffix != kept[j].suffix
        {
          assert kept[j] in rest && kept[j] in tail;
          var k :| 0 <= k < |tail| && tail[k] == kept[j];
          assert rs[k + 1] == kept[j];
        }
        assert rs[0] in rs;
        assert IdsAssigned(kept, nextId);
        assert SuffixesUnique(kept);
      }
    }
  }

  /** The `redirect` table: its rows in id order, and the next key the auto-increment counter will hand out. */
  class RedirectTable {
    var records: seq<Redirect>
    var nextId: nat

    /** Primary keys assigned by the store and never reused; suffixes unique. */
    ghost predicate Valid()
      reads this
      ensures Valid() ==> forall rec :: rec in records ==> 1 <= rec.id < nextId
    {
      nextId >= 1 && IdsAssigned(records, nextId) && SuffixesUnique(records)
    }

    /** A freshly created, empty table. */
    constructor ()
      ensures Valid() && records == [] && nextId == 1
    {
      records := [];
      nextId := 1;
    }

    /** `get_last_redirect`: the record with the greatest id, or None on an empty table. */
    function LastRedirect(): (last: Option<Redirect>)
      reads this
      requires Valid()
      ensures last.None? <==> records == []
      ensures last.Some? ==> IsNewest(records, last.value)
    {
      if records == [] then None else Some(records[|records| - 1])
    }

    /** `get_redirect_url`: the target stored under exactly this suffix, or None. */
    function RedirectUrl(suffix: string): (url: Option<string>)
      reads this
      requires Valid()
      ensures url.None? <==> suffix !in Suffixes(records)
      ensures forall rec :: rec in records && rec.suffix == suffix ==> url == Some(rec.target)
    {
      SuffixDeterminesRecord(records);
      match FindBySuffix(records, suffix)
      case None => None
      case Some(rec) => Some(rec.target)
    }

    /**
     * `create_redirect`: insert a row under the next key, dated `today`. The
     * insert fails with DuplicateSuffix when the suffix is taken, and with
     * OtherIntegrity when `otherFailure` says the database refused it for
     * another reason; a failed insert changes nothing.
     */
    method CreateRedirect(target: string, suffix: string, today: int, otherFailure: bool)
      returns (r: Result<Redirect, StoreError>)
      requires Valid()
      modifies this
      ensures Valid()
      ensures suffix in old(Suffixes(records)) ==> r == Failure(DuplicateSuffix)
      ensures suffix !in old(Suffixes(records)) && otherFailure ==> r == Failure(OtherIntegrity)
      ensures r.Success? <==> suffix !in old(Suffixes(records)) && !otherFailure
      ensures r.Success? ==>
                && r.value == Redirect(old(nextId), suffix, target, today)
                && records == old(records) + [r.value]
                && nextId == old(nextId) + 1
      ensures r.Success? ==> forall rec :: rec in old(records) ==> rec.id < r.value.id
      ensures r.Success? ==> RedirectUrl(suffix) == Some(target)
      ensures r.Success? ==> forall s :: s != suffix ==> RedirectUrl(s) == old(RedirectUrl(s))
      ensures r.Failure? ==> unchanged(this)
    {
      if suffix in Suffixes(records) {
        return Failure(DuplicateSuffix);
      }
      if otherFailure {
        return Failure(OtherIntegrity);
      }
      var rec := Redirect(nextId, suffix, target, today);
      ghost var before := records;
      AppendKeepsConstraints(before, rec, nextId);
      records := records + [rec];
      nextId := nextId + 1;
      FindAfterAppend(before, rec, suffix);
      forall s | s != suffix ensures FindBySuffix(records, s) == FindBySuffix(before, s) {
        FindAfterAppend(before, rec, s);
      }
      r := Success(rec);
    }

    /**
     * `delete_redirects`: with no date, empty the table; with a date, delete
     * exactly the rows created before it. Keys are not handed out again.
     */
    method DeleteRedirects(beforeDate: Option<int>)
      requires Valid()
      modifies this
      ensures Valid() && nextId == old(nextId)
      ensures forall rec :: rec in records ==> rec in old(records)
      ensures beforeDate.None? ==> records == []
      ensures beforeDate.Some? ==> records == KeepFrom(old(records), beforeDate.value)
    {
      if beforeDate.Some? {
        KeepFromPreserves(records, nextId, beforeDate.value);
        records := KeepFrom(records, beforeDate.value);
      } else {
        records := [];
      }
    }
  }
}
