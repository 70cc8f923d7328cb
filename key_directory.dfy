/** The per-room directory of participant aliases and their public keys: the
    upsert keyed by trimmed alias and the listing with its legacy normalisation. */
module KeyDirectory {
  import opened RelayTypes

  /** One element of a room's participant list: a `{alias, publicKey}` record,
      or a bare alias string left by an older representation. */
  datatype Entry = Participant(alias: string, publicKey: string) | Legacy(name: string)

  /** One element of the JSON array `GET /api/participants` returns. */
  datatype Shown =
    | Record(alias: string, publicKey: string)      // {alias, publicKey}
    | BareName(name: string)                        // a bare string, passed through
    | Boxed(alias: string, publicKey: string)       // {alias: {alias, publicKey}, publicKey: ""}

  /** `p.alias === a`: a bare string has no `alias` property, so it never matches. */
  predicate Matches(e: Entry, a: string) {
    e.Participant? && e.alias == a
  }

  /** No two records of a room share an alias. */
  ghost predicate DistinctAliases(list: seq<Entry>) {
    forall i, j :: 0 <= i < j < |list| && list[i].Participant? && list[j].Participant? ==>
      list[i].alias != list[j].alias
  }

  /** What every stored room keeps: no two records share an alias, and no
      record has the empty alias (an upsert never inserts one). */
  ghost predicate WellFormedRoster(list: seq<Entry>) {
    DistinctAliases(list) && KeyOf(list, "").None?
  }

  /** `list.find(p => p.alias === a)`, as an index: the first matching record,
      or None when no record matches. */
  function FindAlias(list: seq<Entry>, a: string): (r: Option<nat>)
    ensures r.Some? ==> r.value < |list| && Matches(list[r.value], a)
    ensures r.Some? ==> forall j :: 0 <= j < r.value ==> !Matches(list[j], a)
    ensures r.None? <==> forall j :: 0 <= j < |list| ==> !Matches(list[j], a)
  {
    if list == [] then None
    else if Matches(list[0], a) then Some(0)
    else match FindAlias(list[1..], a)
      case None => None
      case Some(i) => Some(i + 1)
  }

  /** The key the directory holds for alias `a`, if it holds a record for it. */
  function KeyOf(list: seq<Entry>, a: string): (r: Option<string>)
    ensures r.Some? <==> exists j :: 0 <= j < |list| && Matches(list[j], a)
    ensures r.Some? ==> exists j :: 0 <= j < |list| && list[j] == Participant(a, r.value)
  {
    match FindAlias(list, a)
    case Some(i) => Some(list[i].publicKey)
    case None => None
  }

  /** The upsert of `POST /api/participants` for an already trimmed alias `a`:
      a matching record gets the supplied key (and keeps its own when none is
      supplied); otherwise a new record is appended, unless `a` is empty. */
  function Upsert(list: seq<Entry>, a: string, key: Option<string>): (r: seq<Entry>)
    ensures |r| == |list| || (|r| == |list| + 1 && a != "" && r[..|list|] == list)
    ensures forall j :: 0 <= j < |list| && !Matches(list[j], a) ==> r[j] == list[j]
  {
    match FindAlias(list, a)
    case Some(i) => list[i := Participant(a, key.GetOr(list[i].publicKey))]
    case None => if a != "" then list + [Participant(a, key.GetOr(""))] else list
  }

  /** Upsert keeps the directory free of duplicate aliases. */
  lemma {:induction false} UpsertKeepsAliasesDistinct(list: seq<Entry>, a: string, key: Option<string>)
    requires DistinctAliases(list)
    ensures DistinctAliases(Upsert(list, a, key))
  {
    var r := Upsert(list, a, key);
    match FindAlias(list, a)
    case Some(i) =>
      forall p, q | 0 <= p < q < |r| && r[p].Participant? && r[q].Participant?
        ensures r[p].alias != r[q].alias
      {
        if p != i && q != i {
          assert r[p] == list[p] && r[q] == list[q];
        } else if p == i {
          assert r[q] == list[q];
        } else {
          assert r[p] == list[p];
        }
      }
    case None =>
  }

  /** After an upsert of a non-empty alias (or of one already present) the
      directory holds that alias with the supplied key, or with the key it held
      before (the empty key for a new record) when none was supplied. */
  lemma {:induction false} UpsertSetsKey(list: seq<Entry>, a: string, key: Option<string>)
    requires a != "" || KeyOf(list, a).Some?
    ensures KeyOf(Upsert(list, a, key), a) == Some(key.GetOr(KeyOf(list, a).GetOr("")))
  {
    var r := Upsert(list, a, key);
    match FindAlias(list, a)
    case Some(i) =>
      assert FindAlias(r, a) == Some(i) by {
        assert Matches(r[i], a);
        assert forall j :: 0 <= j < i ==> r[j] == list[j];
      }
    case None =>
      assert FindAlias(r, a) == Some(|list|) by {
        assert Matches(r[|list|], a);
        assert forall j :: 0 <= j < |list| ==> r[j] == list[j];
      }
  }

  /** Helper for `UpsertKeepsOtherKeys`: two lists that agree on which of the
      first `|list|` positions hold alias `b` (with equal entries there), where
      `r` holds `b` nowhere beyond them, give `b` the same key. */
  lemma KeyOfAgrees(list: seq<Entry>, r: seq<Entry>, b: string)
    requires |list| <= |r|
    requires forall j :: 0 <= j < |list| ==> (Matches(r[j], b) <==> Matches(list[j], b))
    requires forall j :: 0 <= j < |list| && Matches(list[j], b) ==> r[j] == list[j]
    requires forall j :: |list| <= j < |r| ==> !Matches(r[j], b)
    ensures KeyOf(r, b) == KeyOf(list, b)
  {
    match FindAlias(list, b)
    case Some(i) =>
      assert FindAlias(r, b) == Some(i);
    case None =>
      assert FindAlias(r, b).None?;
  }

  /** An upsert of alias `a` leaves every other alias's key as it was. */
  lemma {:induction false} UpsertKeepsOtherKeys(list: seq<Entry>, a: string, key: Option<string>, b: string)
    requires b != a
    ensures KeyOf(Upsert(list, a, key), b) == KeyOf(list, b)
  {
    var r := Upsert(list, a, key);
    match FindAlias(list, a) {
      case Some(i) =>
        assert r == list[i := Participant(a, key.GetOr(list[i].publicKey))];
        assert !Matches(r[i], b) && !Matches(list[i], b);
      case None =>
        assert r[..|list|] == list;
        assert forall j :: 0 <= j < |list| ==> r[j] == list[j];
    }
    KeyOfAgrees(list, r, b);
  }

  /** Upsert keeps a room's list well formed. */
  lemma {:induction false} UpsertKeepsRosterWellFormed(list: seq<Entry>, a: string, key: Option<string>)
    requires WellFormedRoster(list)
    ensures WellFormedRoster(Upsert(list, a, key))
  {
    UpsertKeepsAliasesDistinct(list, a, key);
    if a == "" {
      EmptyAliasNotInserted(list, key);
    } else {
      UpsertKeepsOtherKeys(list, a, key, "");
    }
  }

  /** Repeating an upsert with the same alias and key changes nothing more. */
  lemma {:induction false} UpsertIdempotent(list: seq<Entry>, a: string, key: Option<string>)
    ensures Upsert(Upsert(list, a, key), a, key) == Upsert(list, a, key)
  {
    var r := Upsert(list, a, key);
    match FindAlias(list, a)
    case Some(i) =>
      assert FindAlias(r, a) == Some(i) by {
        assert Matches(r[i], a);
        assert forall j :: 0 <= j < i ==> r[j] == list[j];
      }
    case None =>
      if a != "" {
        assert FindAlias(r, a) == Some(|list|) by {
          assert Matches(r[|list|], a);
          assert forall j :: 0 <= j < |list| ==> r[j] == list[j];
        }
      }
  }

  /** Posting key k1 and then k2 for one alias leaves exactly k2; posting k1 and
      then no key leaves k1. */
  lemma {:induction false} SecondPostWins(list: seq<Entry>, a: string, k1: string, k2: Option<string>)
    requires a != ""
    ensures KeyOf(Upsert(Upsert(list, a, Some(k1)), a, k2), a) == Some(k2.GetOr(k1))
  {
    UpsertSetsKey(list, a, Some(k1));
    UpsertSetsKey(Upsert(list, a, Some(k1)), a, k2);
  }

  /** An alias that trims to "" is never inserted. */
  lemma {:induction false} EmptyAliasNotInserted(list: seq<Entry>, key: Option<string>)
    requires KeyOf(list, "").None?
    ensures Upsert(list, "", key) == list
  {
    assert FindAlias(list, "").None?;
  }

  /** How one stored element is rendered; `legacy` says the list's first element
      is a bare string, in which case every element is wrapped as an alias. */
  function Show(e: Entry, legacy: bool): Shown {
    match e
    case Legacy(n) => if legacy then Record(n, "") else BareName(n)
    case Participant(a, k) => if legacy then Boxed(a, k) else Record(a, k)
  }

  /** The array `GET /api/participants` returns for a stored list: when the
      first element is a bare string, every element becomes `{alias: elem,
      publicKey: ""}`; otherwise the list is returned as stored. */
  function Listing(list: seq<Entry>): (r: seq<Shown>)
    ensures |r| == |list|
  {
    var legacy := |list| > 0 && list[0].Legacy?;
    seq(|list|, i requires 0 <= i < |list| => Show(list[i], legacy))
  }

  /** A list of records is listed as exactly those records, in order. */
  lemma ListingOfRecords(list: seq<Entry>)
    requires forall i :: 0 <= i < |list| ==> list[i].Participant?
    ensures forall i :: 0 <= i < |list| ==> Listing(list)[i] == Record(list[i].alias, list[i].publicKey)
  {
  }

  /** A legacy list of bare names is listed as records with empty keys, in order. */
  lemma ListingOfLegacyNames(list: seq<Entry>)
    requires forall i :: 0 <= i < |list| ==> list[i].Legacy?
    ensures forall i :: 0 <= i < |list| ==> Listing(list)[i] == Record(list[i].name, "")
  {
  }
}
