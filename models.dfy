/**
 * The `redirect` table's row shape. Every column is a plain value here, so
 * none can be null: `suffix` and `target` are declared non-null, and
 * `created_on` always receives a date (its default is the day of creation).
 * Dates are day numbers. The table-wide constraints (auto-increment primary
 * key, unique suffix index) are the invariant of Crud.RedirectTable.
 */
module Models {

  datatype Redirect = Redirect(id: nat, suffix: string, target: string, createdOn: int)

  /** Why the store refused an insert: the unique suffix index, or any other integrity failure. */
  datatype StoreError = DuplicateSuffix | OtherIntegrity

  /** The suffixes in use. */
  function Suffixes(rs: seq<Redirect>): (ss: set<string>) {
    set rec | rec in rs :: rec.suffix
  }

  /** Primary keys: positive, strictly increasing in storage order, all below the next key to assign. */
  ghost predicate IdsAssigned(rs: seq<Redirect>, nextId: nat) {
    && (forall i :: 0 <= i < |rs| ==> 1 <= rs[i].id < nextId)
    && (forall i, j :: 0 <= i < j < |rs| ==> rs[i].id < rs[j].id)
  }

  /** The unique index on `suffix`. */
  ghost predicate SuffixesUnique(rs: seq<Redirect>) {
    forall i, j :: 0 <= i < j < |rs| ==> rs[i].suffix != rs[j].suffix
  }

  /** `rec` is a record of `rs` with the greatest id. */
  ghost predicate IsNewest(rs: seq<Redirect>, rec: Redirect) {
    rec in rs && forall other :: other in rs ==> other.id <= rec.id
  }
}
