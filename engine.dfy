/** The schema engine: field specifications, the conditional resolver,
    array validation with index-qualified keys, and the full-record pass. */
module Engine {
  import opened Values
  import opened Rules
  import opened Paths

  /** One key of an object schema nested in an array: `name: chain`. */
  datatype Entry = Entry(name: string, chain: seq<Rule>)

  /** What `array().of(...)` demands of every element. */
  datatype ItemSpec =
    | EachValue(chain: seq<Rule>)          // `.of(yup.string())`
    | EachObject(entries: seq<Entry>)      // `.of(yup.object().shape({...}))`

  /** How one top-level field is validated. */
  datatype FieldSpec =
    | Plain(chain: seq<Rule>)
      /** `base` applies unless the sibling `discriminator` holds exactly the
          string `equals`; then `active` replaces it for this call. */
    | When(base: seq<Rule>, discriminator: string, equals: string, active: seq<Rule>)
      /** `chain` applies to the array itself; `item` to each element. */
    | ArrayOf(chain: seq<Rule>, item: ItemSpec)

  datatype Field = Field(name: string, spec: FieldSpec)

  /** Error key to its single message. */
  type Errors = map<string, string>

  /** The message recorded under `k`, as an outcome. */
  function Lookup(m: Errors, k: string): Outcome
  {
    if k in m then Fail(m[k]) else Pass
  }

  function Report(path: string, o: Outcome): Errors
  {
    if o.Fail? then map[path := o.message] else map[]
  }

  /** The schema's own paths are dot-free and pairwise distinct. */
  predicate WellFormed(fields: seq<Field>)
  {
    && (forall i :: 0 <= i < |fields| ==> DotFree(fields[i].name))
    && (forall i, j :: 0 <= i < j < |fields| ==> fields[i].name != fields[j].name)
  }

  predicate DistinctEntries(entries: seq<Entry>)
  {
    forall i, j :: 0 <= i < j < |entries| ==> entries[i].name != entries[j].name
  }

  /** The conditional resolver: the rule chain in force for this record.
      The test is JavaScript's `===` against a string literal, so only a
      string value with exactly those characters selects `active`. */
  function Resolve(spec: FieldSpec, rec: Record): (r: seq<Rule>)
    requires spec.When?
    ensures r == spec.active || r == spec.base
    ensures Get(rec, spec.discriminator) == Str(spec.equals) ==> r == spec.active
    ensures !Get(rec, spec.discriminator).Str? ==> r == spec.base
    ensures Get(rec, spec.discriminator).Str? && Get(rec, spec.discriminator).s != spec.equals ==> r == spec.base
  {
    if Get(rec, spec.discriminator) == Str(spec.equals) then spec.active else spec.base
  }

  /** The errors of one object element at `p`: one per failing key, at `p.key`. */
  function EntriesErrors(p: string, entries: seq<Entry>, fields: map<string, Value>, rc: Recognisers): (r: Errors)
    ensures forall k :: k in r ==> exists j :: 0 <= j < |entries| && k == Child(p, entries[j].name)
    decreases |entries|
  {
    if |entries| == 0 then map[]
    else
      var e := entries[0];
      var rest := EntriesErrors(p, entries[1..], fields, rc);
      assert forall j :: 1 <= j < |entries| ==> entries[j] == entries[1..][j - 1];
      Report(Child(p, e.name), RunChain(e.chain, Child(p, e.name), Get(fields, e.name), rc)) + rest
  }

  /** The errors of the element `x` at `p`. An absent element of an object
      array is validated as an empty object (yup fills in its default). */
  function ItemErrors(p: string, item: ItemSpec, x: Value, rc: Recognisers): (r: Errors)
    ensures forall k :: k in r ==> Under(k, p)
  {
    match item
    case EachValue(chain) => Report(p, RunChain(chain, p, x, rc))
    case EachObject(entries) =>
      if x.Absent? || x.Object? then
        var r := EntriesErrors(p, entries, if x.Object? then x.fields else map[], rc);
        assert forall k :: k in r ==> Under(k, p) by {
          forall k | k in r ensures Under(k, p) {
            var j :| 0 <= j < |entries| && k == Child(p, entries[j].name);
            UnderChildUnderParent(k, p, entries[j].name);
          }
        }
        r
      else map[p := TypeMessage(p, ObjectKind)]
  }

  /** Every element validated independently, its errors keyed beneath `p.i`. */
  function ItemsErrors(p: string, item: ItemSpec, items: seq<Value>, rc: Recognisers): (r: Errors)
    ensures forall k :: k in r ==> exists i :: 0 <= i < |items| && Under(k, IndexPath(p, i))
    decreases |items|
  {
    if |items| == 0 then map[]
    else
      var n := |items| - 1;
      var front := ItemsErrors(p, item, items[..n], rc);
      assert forall i :: 0 <= i < n ==> items[..n][i] == items[i];
      front + ItemErrors(IndexPath(p, n), item, items[n], rc)
  }

  /** The errors of one top-level field; every key lies beneath its name. */
  function FieldErrors(f: Field, rec: Record, rc: Recognisers): (r: Errors)
    ensures forall k :: k in r ==> Under(k, f.name)
  {
    var v := Get(rec, f.name);
    match f.spec
    case Plain(chain) => Report(f.name, RunChain(chain, f.name, v, rc))
    case When(_, _, _, _) => Report(f.name, RunChain(Resolve(f.spec, rec), f.name, v, rc))
    case ArrayOf(chain, item) =>
      var items := if v.List? then ItemsErrors(f.name, item, v.items, rc) else map[];
      assert forall k :: k in items ==> Under(k, f.name) by {
        forall k | k in items ensures Under(k, f.name) {
          var i :| 0 <= i < |v.items| && Under(k, IndexPath(f.name, i));
          UnderChildUnderParent(k, f.name, NatToString(i));
        }
      }
      Report(f.name, RunChain(chain, f.name, v, rc)) + items
  }

  /** One full-record pass over the schema's fields in declared order. */
  function ValidateFields(fields: seq<Field>, rec: Record, rc: Recognisers): (r: Errors)
    ensures forall k :: k in r ==> exists i :: 0 <= i < |fields| && Under(k, fields[i].name)
    decreases |fields|
  {
    if |fields| == 0 then map[]
    else
      var rest := ValidateFields(fields[1..], rec, rc);
      assert forall i :: 1 <= i < |fields| ==> fields[i] == fields[1..][i - 1];
      FieldErrors(fields[0], rec, rc) + rest
  }

  // ---------------------------------------------------------------------
  // Lookups: what a caller reading one key sees.

  /** The chain that decides a field's own key for this record. */
  function ChainFor(f: Field, rec: Record): seq<Rule>
  {
    match f.spec
    case Plain(chain) => chain
    case When(_, _, _, _) => Resolve(f.spec, rec)
    case ArrayOf(chain, _) => chain
  }

  /** A field's own key carries the outcome of its chain (for an array,
      whatever the elements hold); a field that is not an array reports
      under no other key. */
  lemma {:induction false} FieldOwnKey(f: Field, rec: Record, rc: Recognisers)
    ensures Lookup(FieldErrors(f, rec, rc), f.name) == RunChain(ChainFor(f, rec), f.name, Get(rec, f.name), rc)
    ensures !f.spec.ArrayOf? ==> forall k :: k in FieldErrors(f, rec, rc) ==> k == f.name
  {
    var v := Get(rec, f.name);
    if f.spec.ArrayOf? && v.List? {
      var items := ItemsErrors(f.name, f.spec.item, v.items, rc);
      assert f.name !in items by {
        forall k | k in items ensures k != f.name {
          var i :| 0 <= i < |v.items| && Under(k, IndexPath(f.name, i));
          UnderChildUnderParent(k, f.name, NatToString(i));
        }
      }
    }
  }

  /** Under the key of element `i`, the array's errors are exactly that
      element's own errors: the other elements and the array's own chain
      have no say. */
  lemma {:induction false} ItemsLookup(p: string, item: ItemSpec, items: seq<Value>, rc: Recognisers, i: nat, k: string)
    requires i < |items| && Under(k, IndexPath(p, i))
    ensures Lookup(ItemsErrors(p, item, items, rc), k) == Lookup(ItemErrors(IndexPath(p, i), item, items[i], rc), k)
    decreases |items|
  {
    var n := |items| - 1;
    var front := ItemsErrors(p, item, items[..n], rc);
    var last := ItemErrors(IndexPath(p, n), item, items[n], rc);
    assert ItemsErrors(p, item, items, rc) == front + last;
    if i == n {
      forall k' | k' in front ensures !Under(k', IndexPath(p, n)) {
        var j :| 0 <= j < n && Under(k', IndexPath(p, j));
        UnderIndexDisjoint(k', p, j, n);
      }
      assert k !in front;
    } else {
      forall k' | k' in last ensures !Under(k', IndexPath(p, i)) {
        UnderIndexDisjoint(k', p, i, n);
      }
      assert k !in last;
      assert items[..n][i] == items[i];
      ItemsLookup(p, item, items[..n], rc, i, k);
    }
  }

  /** An array's elements report nothing exactly when no element reports anything. */
  lemma ItemsAllPass(p: string, item: ItemSpec, items: seq<Value>, rc: Recognisers)
    ensures ItemsErrors(p, item, items, rc) == map[]
        <==> forall i :: 0 <= i < |items| ==> ItemErrors(IndexPath(p, i), item, items[i], rc) == map[]
  {
    NoItemErrorsEach(p, item, items, rc);
    EachNoItemErrors(p, item, items, rc);
  }

  lemma NoItemErrorsEach(p: string, item: ItemSpec, items: seq<Value>, rc: Recognisers)
    ensures ItemsErrors(p, item, items, rc) == map[]
        ==> forall i :: 0 <= i < |items| ==> ItemErrors(IndexPath(p, i), item, items[i], rc) == map[]
  {
    if ItemsErrors(p, item, items, rc) == map[] {
      forall i | 0 <= i < |items| ensures ItemErrors(IndexPath(p, i), item, items[i], rc) == map[] {
        var m := ItemErrors(IndexPath(p, i), item, items[i], rc);
        if m != map[] {
          var k :| k in m;
          ItemsLookup(p, item, items, rc, i, k);
          assert false;
        }
      }
    }
  }

  lemma {:induction false} EachNoItemErrors(p: string, item: ItemSpec, items: seq<Value>, rc: Recognisers)
    ensures (forall i :: 0 <= i < |items| ==> ItemErrors(IndexPath(p, i), item, items[i], rc) == map[])
        ==> ItemsErrors(p, item, items, rc) == map[]
    decreases |items|
  {
    if |items| > 0 && forall i :: 0 <= i < |items| ==> ItemErrors(IndexPath(p, i), item, items[i], rc) == map[] {
      var n := |items| - 1;
      forall i | 0 <= i < n ensures ItemErrors(IndexPath(p, i), item, items[..n][i], rc) == map[] {
        assert items[..n][i] == items[i];
      }
      EachNoItemErrors(p, item, items[..n], rc);
      assert ItemsErrors(p, item, items, rc)
          == ItemsErrors(p, item, items[..n], rc) + ItemErrors(IndexPath(p, n), item, items[n], rc);
    }
  }

  /** The element errors of an array field at a key beneath index `i`. */
  lemma {:induction false} ArrayItemKey(f: Field, rec: Record, rc: Recognisers, i: nat, k: string)
    requires f.spec.ArrayOf? && Get(rec, f.name).List? && i < |Get(rec, f.name).items|
    requires Under(k, IndexPath(f.name, i))
    ensures Lookup(FieldErrors(f, rec, rc), k)
         == Lookup(ItemErrors(IndexPath(f.name, i), f.spec.item, Get(rec, f.name).items[i], rc), k)
  {
    UnderChildUnderParent(k, f.name, NatToString(i));
    ItemsLookup(f.name, f.spec.item, Get(rec, f.name).items, rc, i, k);
  }

  /** Keys of distinct children of `p` differ. */
  lemma ChildInjective(p: string, a: string, c: string)
    ensures Child(p, a) == Child(p, c) ==> a == c
  {
    assert a == Child(p, a)[|p| + 1..];
    assert c == Child(p, c)[|p| + 1..];
  }

  lemma DistinctTail(entries: seq<Entry>)
    requires DistinctEntries(entries) && |entries| > 0
    ensures DistinctEntries(entries[1..])
  {
    forall a, b | 0 <= a < b < |entries[1..]| ensures entries[1..][a].name != entries[1..][b].name {
      assert entries[1..][a] == entries[a + 1] && entries[1..][b] == entries[b + 1];
    }
  }

  lemma LookupReport(path: string, o: Outcome)
    ensures Lookup(Report(path, o), path) == o
  {
  }

  /** With distinct entry names, the later entries never report at the
      first entry's key. */
  lemma EntriesRestMissHead(p: string, entries: seq<Entry>, fields: map<string, Value>, rc: Recognisers)
    requires DistinctEntries(entries) && |entries| > 0
    ensures Child(p, entries[0].name) !in EntriesErrors(p, entries[1..], fields, rc)
  {
    var k := Child(p, entries[0].name);
    var rest := EntriesErrors(p, entries[1..], fields, rc);
    forall k' | k' in rest ensures k' != k {
      var a :| 0 <= a < |entries[1..]| && k' == Child(p, entries[1..][a].name);
      assert entries[1..][a] == entries[a + 1];
      assert entries[0].name != entries[a + 1].name;
      ChildInjective(p, entries[0].name, entries[a + 1].name);
    }
  }

  /** Within an object element, the key `p.name` of entry `j` carries that
      entry's chain outcome on the element's value for `name`. */
  lemma {:induction false} EntriesLookup(p: string, entries: seq<Entry>, fields: map<string, Value>, rc: Recognisers, e: Entry)
    requires DistinctEntries(entries) && e in entries
    ensures Lookup(EntriesErrors(p, entries, fields, rc), Child(p, e.name))
         == RunChain(e.chain, Child(p, e.name), Get(fields, e.name), rc)
    decreases |entries|
  {
    if e == entries[0] {
      EntriesAtHead(p, entries, fields, rc);
    } else {
      var i :| 0 <= i < |entries| && entries[i] == e;
      assert i > 0 && entries[1..][i - 1] == e;
      EntriesSkipHead(p, entries, fields, rc, e.name);
      DistinctTail(entries);
      EntriesLookup(p, entries[1..], fields, rc, e);
    }
  }

  /** The first entry's key carries the first entry's own outcome. */
  lemma EntriesAtHead(p: string, entries: seq<Entry>, fields: map<string, Value>, rc: Recognisers)
    requires DistinctEntries(entries) && |entries| > 0
    ensures Lookup(EntriesErrors(p, entries, fields, rc), Child(p, entries[0].name))
         == RunChain(entries[0].chain, Child(p, entries[0].name), Get(fields, entries[0].name), rc)
  {
    var e := entries[0];
    var k := Child(p, e.name);
    var rest := EntriesErrors(p, entries[1..], fields, rc);
    var head := Report(k, RunChain(e.chain, k, Get(fields, e.name), rc));
    assert EntriesErrors(p, entries, fields, rc) == head + rest;
    EntriesRestMissHead(p, entries, fields, rc);
    assert Lookup(head + rest, k) == Lookup(head, k);
    LookupReport(k, RunChain(e.chain, k, Get(fields, e.name), rc));
  }

  /** A key named differently from the first entry is not touched by it. */
  lemma EntriesSkipHead(p: string, entries: seq<Entry>, fields: map<string, Value>, rc: Recognisers, name: string)
    requires |entries| > 0 && name != entries[0].name
    ensures Lookup(EntriesErrors(p, entries, fields, rc), Child(p, name))
         == Lookup(EntriesErrors(p, entries[1..], fields, rc), Child(p, name))
  {
    var e := entries[0];
    var rest := EntriesErrors(p, entries[1..], fields, rc);
    var head := Report(Child(p, e.name), RunChain(e.chain, Child(p, e.name), Get(fields, e.name), rc));
    assert EntriesErrors(p, entries, fields, rc) == head + rest;
    ChildInjective(p, e.name, name);
    LookupMissLeft(head, rest, Child(p, name));
  }

  lemma LookupMissLeft(a: Errors, b: Errors, k: string)
    requires forall k' :: k' in a ==> k' != k
    ensures Lookup(a + b, k) == Lookup(b, k)
  {
  }

  /** In a well-formed schema, a key beneath field `i`'s name carries
      exactly what field `i` reports there: fields never overwrite each
      other's messages, so there is at most one message per path. */
  lemma {:induction false} FieldLookup(fields: seq<Field>, rec: Record, rc: Recognisers, i: nat, k: string)
    requires WellFormed(fields) && i < |fields| && Under(k, fields[i].name)
    ensures Lookup(ValidateFields(fields, rec, rc), k) == Lookup(FieldErrors(fields[i], rec, rc), k)
    decreases |fields|
  {
    var head := FieldErrors(fields[0], rec, rc);
    var rest := ValidateFields(fields[1..], rec, rc);
    assert forall a :: 1 <= a < |fields| ==> fields[a] == fields[1..][a - 1];
    if i == 0 {
      forall k' | k' in rest ensures !Under(k', fields[0].name) {
        var a :| 0 <= a < |fields[1..]| && Under(k', fields[1..][a].name);
        UnderDotFreeDisjoint(k', fields[0].name, fields[a + 1].name);
      }
    } else {
      forall k' | k' in head ensures !Under(k', fields[i].name) {
        UnderDotFreeDisjoint(k', fields[0].name, fields[i].name);
      }
      FieldLookup(fields[1..], rec, rc, i - 1, k);
    }
  }

  /** A record passes (no message at all) exactly when every field passes. */
  lemma {:induction false} ValidIffEveryFieldPasses(fields: seq<Field>, rec: Record, rc: Recognisers)
    ensures ValidateFields(fields, rec, rc) == map[]
        <==> forall i :: 0 <= i < |fields| ==> FieldErrors(fields[i], rec, rc) == map[]
    decreases |fields|
  {
    if |fields| > 0 {
      ValidIffEveryFieldPasses(fields[1..], rec, rc);
      assert forall a :: 1 <= a < |fields| ==> fields[a] == fields[1..][a - 1];
      var head := FieldErrors(fields[0], rec, rc);
      var rest := ValidateFields(fields[1..], rec, rc);
      if head != map[] {
        var k :| k in head;
        assert k in head + rest;
      }
      if rest != map[] {
        var k :| k in rest;
        assert k in head + rest;
      }
    }
  }

  /** The paths of the record one field's validation looks at. */
  function FieldReads(f: Field): set<string>
  {
    if f.spec.When? then {f.name, f.spec.discriminator} else {f.name}
  }

  /** Validation reads the record and nothing else: two records that agree
      on every path the schema reads get identical results. */
  lemma {:induction false} ValidateDependsOnlyOnReads(fields: seq<Field>, r1: Record, r2: Record, rc: Recognisers)
    requires forall i, key :: 0 <= i < |fields| && key in FieldReads(fields[i]) ==> Get(r1, key) == Get(r2, key)
    ensures ValidateFields(fields, r1, rc) == ValidateFields(fields, r2, rc)
    decreases |fields|
  {
    if |fields| > 0 {
      var f := fields[0];
      assert Get(r1, f.name) == Get(r2, f.name);
      if f.spec.When? {
        assert Get(r1, f.spec.discriminator) == Get(r2, f.spec.discriminator);
      }
      assert FieldErrors(f, r1, rc) == FieldErrors(f, r2, rc);
      assert forall a :: 1 <= a < |fields| ==> fields[a] == fields[1..][a - 1];
      ValidateDependsOnlyOnReads(fields[1..], r1, r2, rc);
    }
  }
}
