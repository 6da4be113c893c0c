/**
  The document store as the route handlers see it: schemaless records (maps
  from field name to value), collections of records, query filters, and the
  store operations the handlers call (findOne, find, insertOne's `_id` stamping,
  `$set`).
 */
module Documents {
  import opened Wrappers

  /** A JSON/BSON value. Numbers are integers in this model. */
  datatype Value =
    | Null
    | Bool(b: bool)
    | Num(n: int)
    | Str(s: string)
    | Date(millis: int)
    | ObjectId(hex: string)
    | Arr(items: seq<Value>)
    | Obj(fields: map<string, Value>)

  /** A stored record, or a request body. */
  type Doc = map<string, Value>

  /** A collection, in the store's natural order. */
  type Table = seq<Doc>

  /**
    A query filter such as `{ email: user.email }`: every key must equal
    the given value. `None` is a key whose value is `undefined`; it matches
    records that lack the field.
   */
  type Filter = map<string, Option<Value>>

  /** The value of `d.key`, `None` when the field is absent. */
  function Field(d: Doc, key: string): Option<Value>
  {
    if key in d then Some(d[key]) else None
  }

  predicate Matches(d: Doc, f: Filter)
  {
    forall key :: key in f ==> Field(d, key) == f[key]
  }

  predicate AnyMatch(t: Table, f: Filter)
  {
    exists d :: d in t && Matches(d, f)
  }

  /** The filter a handler builds from the fields `keys` of a record. */
  function Project(d: Doc, keys: set<string>): Filter
  {
    map key | key in keys :: Field(d, key)
  }

  /** The position of the first record in natural order that matches `f`. */
  function FirstMatch(t: Table, f: Filter): (r: Option<nat>)
    ensures r.Some? ==> r.value < |t| && Matches(t[r.value], f)
    ensures r.Some? ==> forall j :: 0 <= j < r.value ==> !Matches(t[j], f)
    ensures r.None? ==> forall j :: 0 <= j < |t| ==> !Matches(t[j], f)
  {
    if |t| == 0 then None
    else if Matches(t[0], f) then Some(0)
    else
      match FirstMatch(t[1..], f)
      case None => None
      case Some(i) => Some(i + 1)
  }

  /** `collection.findOne(f)`: some matching record exactly when one exists. */
  function FindOne(t: Table, f: Filter): (r: Option<Doc>)
    ensures r.Some? <==> AnyMatch(t, f)
    ensures r.Some? ==> r.value in t && Matches(r.value, f)
  {
    match FirstMatch(t, f)
    case None => None
    case Some(i) => Some(t[i])
  }

  /**
    `collection.find(f).toArray()`: every matching record, as often as it is
    stored, and nothing else. The order is not part of the contract.
   */
  function Find(t: Table, f: Filter): (r: Table)
    ensures forall d :: multiset(r)[d] == if Matches(d, f) then multiset(t)[d] else 0
  {
    if |t| == 0 then []
    else
      var rest := Find(t[1..], f);
      assert t == [t[0]] + t[1..];
      if Matches(t[0], f) then [t[0]] + rest else rest
  }

  /**
    The record `insertOne` stores: the driver adds a fresh `_id` when the
    record's `_id` is missing or null, and keeps the given one otherwise.
   */
  function WithObjectId(d: Doc, freshId: string): (r: Doc)
    ensures r.Keys == d.Keys + {"_id"}
    ensures forall key :: key in d && key != "_id" ==> r[key] == d[key]
    ensures r["_id"] != Null
    ensures "_id" in d && d["_id"] != Null ==> r == d
    ensures "_id" !in d || d["_id"] == Null ==> r["_id"] == ObjectId(freshId)
  {
    if "_id" in d && d["_id"] != Null then d else d["_id" := ObjectId(freshId)]
  }

  /**
    `{ $set: patch }` applied to one record: the keys of the patch are
    overwritten, every other key is kept.
   */
  function SetFields(d: Doc, patch: Doc): (r: Doc)
    ensures r.Keys == d.Keys + patch.Keys
    ensures forall key :: key in patch ==> r[key] == patch[key]
    ensures forall key :: key in d && key !in patch ==> r[key] == d[key]
  {
    d + patch
  }

  /** No two records of `t` agree on all of the fields `keys`. */
  predicate UniqueOn(t: Table, keys: set<string>)
  {
    forall i, j :: 0 <= i < j < |t| ==> Project(t[i], keys) != Project(t[j], keys)
  }

  /** Exactly one record of `t` matches `f`. */
  predicate ExactlyOne(t: Table, f: Filter)
  {
    && AnyMatch(t, f)
    && forall i, j :: 0 <= i < j < |t| ==> !(Matches(t[i], f) && Matches(t[j], f))
  }

  /** A record matches the filter built from `b` exactly when it agrees with `b` on those keys. */
  lemma MatchesProject(d: Doc, b: Doc, keys: set<string>)
    ensures Matches(d, Project(b, keys)) <==> Project(d, keys) == Project(b, keys)
  {
    if Matches(d, Project(b, keys)) {
      forall key | key in keys
        ensures Project(d, keys)[key] == Project(b, keys)[key]
      {
      }
    }
  }

  /** Appending a record that matches no stored record on `keys` keeps `keys` unique. */
  lemma AppendKeepsUnique(t: Table, d: Doc, keys: set<string>)
    requires UniqueOn(t, keys)
    requires !AnyMatch(t, Project(d, keys))
    ensures UniqueOn(t + [d], keys)
  {
    var t' := t + [d];
    forall i, j | 0 <= i < j < |t'|
      ensures Project(t'[i], keys) != Project(t'[j], keys)
    {
      if j == |t| {
        assert t[i] in t;
        MatchesProject(t[i], d, keys);
      }
    }
  }

  /** Uniqueness on `keys` means at most one record matches a filter built from those keys. */
  lemma UniqueMatchesOnce(t: Table, b: Doc, keys: set<string>)
    requires UniqueOn(t, keys)
    requires AnyMatch(t, Project(b, keys))
    ensures ExactlyOne(t, Project(b, keys))
  {
    forall i, j | 0 <= i < j < |t|
      ensures !(Matches(t[i], Project(b, keys)) && Matches(t[j], Project(b, keys)))
    {
      MatchesProject(t[i], b, keys);
      MatchesProject(t[j], b, keys);
    }
  }

  /**
    The check-then-insert guard: `rec` is stored only when no record matches
    the filter built from `b` on `keys`, and `rec` agrees with `b` there.
    Afterwards exactly one record matches and `keys` are still unique.
   */
  lemma {:induction false} GuardedInsertKeepsUnique(t: Table, b: Doc, rec: Doc, keys: set<string>)
    requires UniqueOn(t, keys)
    requires Project(rec, keys) == Project(b, keys)
    ensures var t' := if AnyMatch(t, Project(b, keys)) then t else t + [rec];
      UniqueOn(t', keys) && ExactlyOne(t', Project(b, keys))
  {
    if !AnyMatch(t, Project(b, keys)) {
      AppendKeepsUnique(t, rec, keys);
      MatchesProject(rec, b, keys);
      assert rec in t + [rec];
      UniqueMatchesOnce(t + [rec], b, keys);
    } else {
      UniqueMatchesOnce(t, b, keys);
    }
  }

  /** Removing the record at `i` takes exactly that record out of the collection. */
  lemma RemoveAtMultiset(t: Table, i: nat)
    requires i < |t|
    ensures multiset(t[..i] + t[i+1..]) == multiset(t) - multiset{t[i]}
  {
    assert t == t[..i] + [t[i]] + t[i+1..];
  }
}
