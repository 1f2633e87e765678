/** The importer itself: it walks the `territory` elements of the metadata
    document in order and builds, per country id, the record the four passes
    produce. A country id seen twice keeps its record and has the passes run
    on it again. */
module Importer {
  import opened Markup
  import opened Hashes
  import opened Normalisers

  /** `territory.attributes["id"]`, absent when the territory has no `id`. */
  function TerritoryId(t: Node): Option<string> {
    Lookup(AttributeTable(t.attrs), "id")
  }

  /** What one territory brings to the walk: its id and what each of the four
      passes takes from it. */
  datatype Contribution = Contribution(
    id: Option<string>,
    base: seq<(string, Value)>,
    references: seq<string>,
    validations: map<string, map<string, string>>,
    formats: seq<map<string, string>>)

  function ContributionOf(t: Node): Contribution {
    Contribution(TerritoryId(t), BaseWrites(t), ReferencesOf(t), ValidationsOf(t), FormatsOf(t))
  }

  function Contributions(ts: seq<Node>): seq<Contribution> {
    seq(|ts|, i requires 0 <= i < |ts| => ContributionOf(ts[i]))
  }

  /** The record after the four passes, in the order the walker runs them:
      the base attributes are merged in, then the three sections replaced. */
  function Merge(rec: Record, c: Contribution): Record {
    AssignAll(rec, c.base)
      [References := Texts(c.references)]
      [Validations := Table(c.validations)]
      [Formats := Records(c.formats)]
  }

  predicate IsSectionKey(k: string) {
    k == References || k == Validations || k == Formats
  }

  /** The three sections come from the territory alone; every other key is as
      the base attributes left it. */
  lemma MergeFacts(rec: Record, c: Contribution)
    ensures var r := Merge(rec, c);
      && r[References] == Texts(c.references)
      && r[Validations] == Table(c.validations)
      && r[Formats] == Records(c.formats)
      && (forall k :: !IsSectionKey(k) ==> (k in r <==> k in AssignAll(rec, c.base)))
      && (forall k :: !IsSectionKey(k) && k in r ==> r[k] == AssignAll(rec, c.base)[k])
  {
  }

  /** The number of territories before the first one without an `id`: the
      walk raises an error there, having imported exactly those before it. */
  function FirstWithoutId(cs: seq<Contribution>): (n: nat)
    ensures n <= |cs|
    ensures forall i :: 0 <= i < n ==> cs[i].id.Some?
    ensures n < |cs| ==> cs[n].id.None?
  {
    if cs == [] then 0
    else if cs[0].id.None? then 0
    else 1 + FirstWithoutId(cs[1..])
  }

  predicate AllHaveIds(cs: seq<Contribution>) {
    forall i :: 0 <= i < |cs| ==> cs[i].id.Some?
  }

  /** `@data[id] ||= {}`: the stored record, or a fresh empty one. */
  function Entry(d: map<string, Record>, id: string): Record {
    if id in d then d[id] else map[]
  }

  /** The data after the walk has handled the territories `cs`, in order. */
  function Imported(d: map<string, Record>, cs: seq<Contribution>): map<string, Record>
    requires AllHaveIds(cs)
    decreases |cs|
  {
    if cs == [] then d
    else
      var c := cs[|cs| - 1];
      var prev := Imported(d, cs[..|cs| - 1]);
      prev[c.id.value := Merge(Entry(prev, c.id.value), c)]
  }

  /** The base-attribute writes of every territory carrying `id`, in document
      order. */
  function BaseWritesFor(cs: seq<Contribution>, id: string): seq<(string, Value)>
    decreases |cs|
  {
    if cs == [] then []
    else
      var c := cs[|cs| - 1];
      BaseWritesFor(cs[..|cs| - 1], id) + (if c.id == Some(id) then c.base else [])
  }

  /** The importer: the parsed document and the data built from it. */
  class DataImporter {
    var data: map<string, Record>
    const file: Document

    /** `initialize`: empty data over an already parsed document. */
    constructor(file: Document)
      ensures this.file == file && data == map[]
    {
      this.file := file;
      data := map[];
    }

    /** `parse_main_data`: every territory of `territories territory`, in
        document order, merged into the record of its id. A territory without
        an `id` stops the walk with an error (`ok` is false), leaving the data
        of the territories before it. */
    method ParseMainData() returns (ok: bool)
      modifies this
      ensures var cs := Contributions(Territories(file));
        var n := FirstWithoutId(cs);
        && (ok <==> n == |cs|)
        && data == Imported(old(data), cs[..n])
    {
      var ts := Territories(file);
      ghost var cs := Contributions(ts);
      ghost var d0 := data;
      var i := 0;
      while i < |ts|
        invariant i <= |ts|
        invariant AllHaveIds(cs[..i])
        invariant data == Imported(d0, cs[..i])
      {
        var territory := ts[i];
        var id := TerritoryId(territory);
        ContributionAt(ts, i);
        if id.None? {
          FirstWithoutIdAt(cs, i);
          return false;
        }
        MergeTerritory(id.value, territory);
        ImportedStep(d0, cs, i);
        i := i + 1;
      }
      assert cs[..i] == cs;
      ok := true;
    }

    /** The body of the walk for a territory with id `key`: `@data[key] ||= {}`
        and then the four passes on that record. */
    method MergeTerritory(key: string, territory: Node)
      modifies this
      ensures data == old(data)[key := Merge(Entry(old(data), key), ContributionOf(territory))]
    {
      ghost var prev := data;
      if key !in data {
        data := data[key := map[]];
      }
      var rec := data[key];
      assert rec == Entry(prev, key);
      rec := LoadBaseAttributes(rec, territory);
      rec := LoadReferences(rec, territory);
      rec := LoadValidations(rec, territory);
      rec := LoadFormats(rec, territory);
      MergeOf(Entry(prev, key), territory);
      if key !in prev {
        Overwrite(prev, key, map[], rec);
      }
      data := data[key := rec];
    }
  }

  lemma ContributionAt(ts: seq<Node>, i: nat)
    requires i < |ts|
    ensures |Contributions(ts)| == |ts|
    ensures Contributions(ts)[i] == ContributionOf(ts[i])
    ensures Contributions(ts)[i].id == TerritoryId(ts[i])
  {
  }

  /** The four passes over a territory give its contribution merged in. */
  lemma MergeOf(rec: Record, t: Node)
    ensures Merge(rec, ContributionOf(t))
            == AssignAll(rec, BaseWrites(t))
                 [References := Texts(ReferencesOf(t))]
                 [Validations := Table(ValidationsOf(t))]
                 [Formats := Records(FormatsOf(t))]
  {
  }

  /** The walk stops at the first territory without an id. */
  lemma {:induction false} FirstWithoutIdAt(cs: seq<Contribution>, i: nat)
    requires i < |cs| && AllHaveIds(cs[..i]) && cs[i].id.None?
    ensures FirstWithoutId(cs) == i
  {
  }

  /** One more territory on top of a prefix of the walk. */
  lemma ImportedStep(d: map<string, Record>, cs: seq<Contribution>, i: nat)
    requires i < |cs| && AllHaveIds(cs[..i]) && cs[i].id.Some?
    ensures AllHaveIds(cs[..i + 1])
    ensures var prev := Imported(d, cs[..i]);
      var id := cs[i].id.value;
      Imported(d, cs[..i + 1]) == prev[id := Merge(Entry(prev, id), cs[i])]
  {
    assert cs[..i + 1][..i] == cs[..i];
  }

  /** A country id that no territory carries keeps whatever it had. */
  lemma {:induction false} ImportedOtherIds(d: map<string, Record>, cs: seq<Contribution>, k: string)
    requires AllHaveIds(cs)
    requires forall i :: 0 <= i < |cs| ==> cs[i].id != Some(k)
    ensures k in Imported(d, cs) <==> k in d
    ensures k in d ==> Imported(d, cs)[k] == d[k]
    decreases |cs|
  {
    if cs != [] {
      ImportedOtherIds(d, cs[..|cs| - 1], k);
    }
  }

  /** The ids of the territories. */
  function IdsOf(cs: seq<Contribution>): set<string> {
    set i | 0 <= i < |cs| && cs[i].id.Some? :: cs[i].id.value
  }

  /** The data holds the old ids and one entry per id of a territory. */
  lemma {:induction false} ImportedKeys(d: map<string, Record>, cs: seq<Contribution>)
    requires AllHaveIds(cs)
    ensures Imported(d, cs).Keys == d.Keys + IdsOf(cs)
    decreases |cs|
  {
    if cs != [] {
      var n := |cs| - 1;
      var init := cs[..n];
      ImportedKeys(d, init);
      assert IdsOf(cs) == IdsOf(init) + {cs[n].id.value} by {
        forall k | k in IdsOf(cs) ensures k in IdsOf(init) + {cs[n].id.value} {
          var i :| 0 <= i < |cs| && cs[i].id.Some? && cs[i].id.value == k;
          if i < n { assert init[i] == cs[i]; }
        }
        forall k | k in IdsOf(init) ensures k in IdsOf(cs) {
          var i :| 0 <= i < |init| && init[i].id.Some? && init[i].id.value == k;
          assert cs[i] == init[i];
        }
      }
    }
  }

  /** The references, validations and formats of a country are those of the
      last territory carrying its id. */
  lemma {:induction false} ImportedSectionsFromLast(d: map<string, Record>, cs: seq<Contribution>, i: nat)
    requires AllHaveIds(cs) && i < |cs|
    requires forall j :: i < j < |cs| ==> cs[j].id != cs[i].id
    ensures cs[i].id.value in Imported(d, cs)
    ensures var r := Imported(d, cs)[cs[i].id.value];
      && References in r && r[References] == Texts(cs[i].references)
      && Validations in r && r[Validations] == Table(cs[i].validations)
      && Formats in r && r[Formats] == Records(cs[i].formats)
    decreases |cs|
  {
    var n := |cs| - 1;
    var init := cs[..n];
    var prev := Imported(d, init);
    MergeFacts(Entry(prev, cs[n].id.value), cs[n]);
    if i < n {
      assert init[i] == cs[i];
      ImportedSectionsFromLast(d, init, i);
    }
  }

  /** Outside the three sections, a country's record is what its earlier
      record becomes under the base attributes of every territory carrying its
      id, in document order: attributes accumulate across territories and a
      later one overrides an earlier one. */
  lemma {:induction false} ImportedBaseKeys(d: map<string, Record>, cs: seq<Contribution>, k: string, key: string)
    requires AllHaveIds(cs) && !IsSectionKey(key)
    ensures key in Entry(Imported(d, cs), k) <==> key in AssignAll(Entry(d, k), BaseWritesFor(cs, k))
    ensures key in Entry(Imported(d, cs), k) ==>
              Entry(Imported(d, cs), k)[key] == AssignAll(Entry(d, k), BaseWritesFor(cs, k))[key]
    decreases |cs|
  {
    if cs != [] {
      var n := |cs| - 1;
      var init := cs[..n];
      var c := cs[n];
      ImportedBaseKeys(d, init, k, key);
      var prev := Imported(d, init);
      if c.id == Some(k) {
        MergeFacts(Entry(prev, k), c);
        AssignAllAgree(Entry(prev, k), AssignAll(Entry(d, k), BaseWritesFor(init, k)), c.base, key);
        AssignAllAppend(Entry(d, k), BaseWritesFor(init, k), c.base);
      } else {
        assert c.id.value != k;
        assert Imported(d, cs) == prev[c.id.value := Merge(Entry(prev, c.id.value), c)];
        assert Entry(Imported(d, cs), k) == Entry(prev, k);
        assert BaseWritesFor(cs, k) == BaseWritesFor(init, k) + [];
        assert BaseWritesFor(cs, k) == BaseWritesFor(init, k);
      }
    }
  }

  /** The value of a base attribute is the one its last write across all the
      territories of that id left. */
  lemma ImportedBaseLastWrite(d: map<string, Record>, cs: seq<Contribution>, k: string, i: nat)
    requires AllHaveIds(cs)
    requires IsLastWrite(BaseWritesFor(cs, k), i) && !IsSectionKey(BaseWritesFor(cs, k)[i].0)
    ensures var w := BaseWritesFor(cs, k)[i];
      && w.0 in Entry(Imported(d, cs), k)
      && Entry(Imported(d, cs), k)[w.0] == w.1
  {
    var w := BaseWritesFor(cs, k)[i];
    ImportedBaseKeys(d, cs, k, w.0);
    AssignAllLastWriteWins(Entry(d, k), BaseWritesFor(cs, k));
  }
}
