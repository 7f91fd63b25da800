/** Merging Compose files, later ones over earlier ones. */
module ComposeMerge {
  import opened Basics
  import opened Text
  import opened KeyedSequence

  /** A parsed document.  `Other` stands for the scalars that are not strings, by their printed form;
      `Override` for a tagged value, `Override(None)` for one to be removed. */
  datatype Value =
    | Text(text: string)
    | Other(printed: string)
    | List(items: seq<Value>)
    | Mapping(entries: map<string, Value>)
    | Override(replacement: Option<Value>)

  const MERGED_SEQUENCE_KEYS: set<string> :=
    {"volumes", "env_file", "ports", "expose", "configs", "secrets", "devices", "dns", "tmpfs"}

  /** `parts = entry.split(":")`, then `parts[1]`, or `parts[0]` when there is no colon. */
  function VolumeTarget(entry: string): string {
    var k := IndexOf(entry, ':');
    if k == |entry| then entry
    else
      var rest := entry[k + 1..];
      rest[..IndexOf(rest, ':')]
  }

  /** `write` is how mappings, lists and other scalars are written as strings. */
  function SequenceIdentity(key: string, entry: Value, write: Value -> string): string {
    if key == "volumes" && entry.Mapping? && "target" in entry.entries && entry.entries["target"].Text? then
      entry.entries["target"].text
    else if key == "volumes" && entry.Text? then VolumeTarget(entry.text)
    else if entry.Text? then entry.text
    else write(entry)
  }

  function IdentityOf(key: string, write: Value -> string): Value -> string {
    (entry: Value) => SequenceIdentity(key, entry, write)
  }

  function MergeSequence(key: string, existing: seq<Value>, overlay: seq<Value>, write: Value -> string): seq<Value> {
    Dedup(IdentityOf(key, write), existing + overlay)
  }

  predicate MergesSequences(key: string, path: seq<string>) {
    key in MERGED_SEQUENCE_KEYS && |path| > 0 && path[0] == "services"
  }

  /** An overlay's value for a key that the base has too. */
  function MergeValue(existing: Value, value: Value, key: string, path: seq<string>, write: Value -> string): Value
    decreases value, 2
  {
    if existing.Mapping? && value.Mapping? then Mapping(Merge(existing.entries, value, path + [key], write))
    else if existing.List? && value.List? && MergesSequences(key, path) then
      List(MergeSequence(key, existing.items, value.items, write))
    else value
  }

  /** One key of the result; nothing when the key is absent. */
  function Entry(base: map<string, Value>, overlay: Value, key: string, path: seq<string>,
                 write: Value -> string): Option<Value>
    requires overlay.Mapping?
    decreases overlay, 0
  {
    if key !in overlay.entries then if key in base then Some(base[key]) else None
    else
      var value := overlay.entries[key];
      if value.Override? then value.replacement
      else Some(if key in base then MergeValue(base[key], value, key, path, write) else value)
  }

  function Merge(base: map<string, Value>, overlay: Value, path: seq<string>,
                 write: Value -> string): map<string, Value>
    requires overlay.Mapping?
    decreases overlay, 1
  {
    map key | key in base.Keys + overlay.entries.Keys && Entry(base, overlay, key, path, write).Some? ::
      Entry(base, overlay, key, path, write).value
  }

  function Lookup(m: map<string, Value>, key: string): Option<Value> {
    if key in m then Some(m[key]) else None
  }

  lemma SameLookups(m: map<string, Value>, n: map<string, Value>)
    requires forall key :: Lookup(m, key) == Lookup(n, key)
    ensures m == n
  {
    assert forall key :: key in m ==> Lookup(m, key) == Lookup(n, key) == Some(m[key]);
    assert forall key :: key in n ==> Lookup(m, key) == Lookup(n, key) == Some(n[key]);
  }

  lemma MergeLookup(base: map<string, Value>, overlay: Value, path: seq<string>, write: Value -> string, key: string)
    requires overlay.Mapping?
    ensures Lookup(Merge(base, overlay, path, write), key) == Entry(base, overlay, key, path, write)
  { }

  /** The same, step by step; the order in which the overlay's keys are visited does not matter. */
  method DeepMerge(base: map<string, Value>, overlay: Value, path: seq<string>, write: Value -> string)
    returns (merged: map<string, Value>)
    requires overlay.Mapping?
    ensures merged == Merge(base, overlay, path, write)
    decreases overlay
  {
    merged := base;
    var pending := overlay.entries.Keys;
    while pending != {}
      invariant pending <= overlay.entries.Keys
      invariant forall key :: Lookup(merged, key) ==
                  if key in pending then Lookup(base, key) else Entry(base, overlay, key, path, write)
      decreases |pending|
    {
      var key :| key in pending;
      var value := overlay.entries[key];
      assert Lookup(merged, key) == Lookup(base, key);
      if value.Override? {
        merged := if value.replacement.None? then merged - {key} else merged[key := value.replacement.value];
      } else if key in merged && merged[key].Mapping? && value.Mapping? {
        var nested := DeepMerge(merged[key].entries, value, path + [key], write);
        merged := merged[key := Mapping(nested)];
      } else if key in merged && merged[key].List? && value.List? && MergesSequences(key, path) {
        var items := MergeSequences(key, merged[key].items, value.items, write);
        merged := merged[key := List(items)];
      } else {
        merged := merged[key := value];
      }
      pending := pending - {key};
    }
    forall key ensures Lookup(merged, key) == Lookup(Merge(base, overlay, path, write), key) {
      MergeLookup(base, overlay, path, write, key);
    }
    SameLookups(merged, Merge(base, overlay, path, write));
  }

  /** A dictionary from identities to entries, kept with the order of insertion of its keys. */
  method MergeSequences(key: string, existing: seq<Value>, overlay: seq<Value>, write: Value -> string)
    returns (merged: seq<Value>)
    ensures merged == MergeSequence(key, existing, overlay, write)
  {
    var id := IdentityOf(key, write);
    var order: seq<string>, entries: map<string, Value> := [], map[];
    order, entries := PutAll(id, [], existing, order, entries);
    assert [] + existing == existing;
    order, entries := PutAll(id, existing, overlay, order, entries);
    merged := Values(id, existing + overlay, order, entries);
  }

  // ---------------------------------------------------------------------------------------------
  // Algebra
  // ---------------------------------------------------------------------------------------------

  /** No override markers anywhere. */
  predicate Plain(v: Value) {
    match v
    case Text(_) => true
    case Other(_) => true
    case List(items) => forall i :: 0 <= i < |items| ==> Plain(items[i])
    case Mapping(entries) => forall key :: key in entries ==> Plain(entries[key])
    case Override(_) => false
  }

  lemma {:induction false} MergedIsPlain(a: map<string, Value>, b: Value, path: seq<string>, write: Value -> string)
    requires Plain(Mapping(a)) && b.Mapping? && Plain(b)
    ensures Plain(Mapping(Merge(a, b, path, write)))
    decreases b, 1
  {
    var m := Merge(a, b, path, write);
    forall key | key in m ensures Plain(m[key]) {
      MergeLookup(a, b, path, write, key);
      assert key in b.entries ==> Plain(b.entries[key]);
      assert key in a ==> Plain(Mapping(a).entries[key]);
      if key in b.entries && key in a {
        MergedValueIsPlain(a[key], b.entries[key], key, path, write);
      }
    }
  }

  lemma {:induction false} MergedValueIsPlain(x: Value, y: Value, key: string, path: seq<string>,
                                              write: Value -> string)
    requires Plain(x) && Plain(y)
    ensures Plain(MergeValue(x, y, key, path, write))
    decreases y, 2
  {
    if x.Mapping? && y.Mapping? {
      MergedIsPlain(x.entries, y, path + [key], write);
    } else if x.List? && y.List? && MergesSequences(key, path) {
      var merged := MergeSequence(key, x.items, y.items, write);
      forall i | 0 <= i < |merged| ensures Plain(merged[i]) {
        DedupSelects(IdentityOf(key, write), x.items + y.items, i);
      }
    }
  }

  lemma DedupSelects(id: Value -> string, s: seq<Value>, i: nat)
    requires i < |Dedup(id, s)|
    ensures Dedup(id, s)[i] in s
  {
    assert Firsts(Ids(id, s))[i] in Firsts(Ids(id, s));
  }

  /** The two values are combined, rather than the second replacing the first. */
  predicate Combine(x: Value, y: Value, key: string, path: seq<string>) {
    (x.Mapping? && y.Mapping?) || (x.List? && y.List? && MergesSequences(key, path))
  }

  /** Whatever `x` holds is already in `y`, or replaced by it. */
  predicate AddsNothing(x: Value, y: Value, key: string, path: seq<string>, write: Value -> string)
    decreases y
  {
    if !Combine(x, y, key, path) then true
    else if x.Mapping? then
      && (forall k :: k in y.entries ==> !y.entries[k].Override?)
      && (forall k :: k in x.entries ==>
            k in y.entries && AddsNothing(x.entries[k], y.entries[k], k, path + [key], write))
    else
      var id := IdentityOf(key, write);
      Firsts(Ids(id, x.items) + Ids(id, y.items)) == Ids(id, y.items)
  }

  /** How many markers are wrapped around the value. */
  function Wraps(v: Value): nat {
    match v
    case Override(Some(w)) => 1 + Wraps(w)
    case _ => 0
  }

  lemma NoMarkerWrapsItself(v: Value)
    ensures v != Override(Some(v))
  {
    assert Wraps(Override(Some(v))) == 1 + Wraps(v);
  }

  lemma {:induction false} MergeGivesTheSecondExactlyWhen(x: Value, y: Value, key: string, path: seq<string>,
                                                          write: Value -> string)
    ensures MergeValue(x, y, key, path, write) == y <==> AddsNothing(x, y, key, path, write)
    decreases y
  {
    if x.Mapping? && y.Mapping? {
      var p := path + [key];
      var m := Merge(x.entries, y, p, write);
      forall k ensures Lookup(m, k) == Lookup(y.entries, k)
                  <==> ((k in y.entries ==> !y.entries[k].Override?)
                        && (k in x.entries ==> k in y.entries && AddsNothing(x.entries[k], y.entries[k], k, p, write)))
      {
        MergeLookup(x.entries, y, p, write, k);
        if k in y.entries && y.entries[k].Override? && y.entries[k].replacement.Some? {
          NoMarkerWrapsItself(y.entries[k].replacement.value);
        } else if k in x.entries && k in y.entries && !y.entries[k].Override? {
          MergeGivesTheSecondExactlyWhen(x.entries[k], y.entries[k], k, p, write);
        }
      }
      if AddsNothing(x, y, key, path, write) {
        SameLookups(m, y.entries);
      }
    } else if Combine(x, y, key, path) {
      KeyedSequence.AddsNothingExactlyWhen(IdentityOf(key, write), x.items, y.items);
    }
  }

  /** The outer two values combine only if the middle one combines with them, or if the last one
      already holds whatever the first would add. */
  predicate Associates(a: Value, b: Value, c: Value, key: string, path: seq<string>, write: Value -> string)
    decreases b, 2
  {
    if !Combine(a, c, key, path) then true
    else if !Combine(a, b, key, path) then AddsNothing(a, c, key, path, write)
    else if a.Mapping? then AssociateEverywhere(a.entries, b, c, path + [key], write)
    else true
  }

  /** A marker is taken off when the overlays are merged first, so nothing may be left for it to do: there
      is nothing to remove, and nothing that the replacement would be combined with. */
  predicate MarkerIsSpent(a: map<string, Value>, replacement: Option<Value>, key: string, path: seq<string>,
                          write: Value -> string)
  {
    match replacement
    case None => key !in a
    case Some(v) => !v.Override? && (key in a ==> AddsNothing(a[key], v, key, path, write))
  }

  /** What is left of `z` when it is laid over `x`, or over nothing. */
  function LaidOver(x: Option<Value>, z: Value, key: string, path: seq<string>, write: Value -> string): Value {
    if x.Some? then MergeValue(x.value, z, key, path, write) else z
  }

  /** A marker in the last document must be spent.  A marker in the middle one is overtaken when the last
      two are merged first, so its replacement and what it replaces must come to the same under the last. */
  predicate EntryAssociates(a: map<string, Value>, b: Value, c: Value, key: string, path: seq<string>,
                            write: Value -> string)
    requires b.Mapping? && c.Mapping? && key in c.entries
    decreases b, 0
  {
    var z := c.entries[key];
    if z.Override? then MarkerIsSpent(a, z.replacement, key, path, write)
    else if key in b.entries && b.entries[key].Override? then
      LaidOver(b.entries[key].replacement, z, key, path, write) == LaidOver(Lookup(a, key), z, key, path, write)
    else key in a && key in b.entries ==> Associates(a[key], b.entries[key], c.entries[key], key, path, write)
  }

  predicate AssociateEverywhere(a: map<string, Value>, b: Value, c: Value, path: seq<string>, write: Value -> string)
    requires b.Mapping? && c.Mapping?
    decreases b, 1
  {
    forall key :: key in c.entries ==> EntryAssociates(a, b, c, key, path, write)
  }

  lemma PlainLookup(base: map<string, Value>, overlay: Value, path: seq<string>, write: Value -> string, key: string)
    requires overlay.Mapping? && Plain(overlay)
    ensures Lookup(Merge(base, overlay, path, write), key)
         == if key in base && key in overlay.entries then
              Some(MergeValue(base[key], overlay.entries[key], key, path, write))
            else if key in base then Some(base[key])
            else Lookup(overlay.entries, key)
  {
    assert key in overlay.entries ==> Plain(overlay.entries[key]);
  }

  lemma {:induction false} AssociatesExactlyWhen(a: Value, b: Value, c: Value, key: string, path: seq<string>,
                                                 write: Value -> string)
    ensures MergeValue(MergeValue(a, b, key, path, write), c, key, path, write)
         == MergeValue(a, MergeValue(b, c, key, path, write), key, path, write)
       <==> Associates(a, b, c, key, path, write)
    decreases b, 2
  {
    if Combine(a, c, key, path) && !Combine(a, b, key, path) {
      MergeGivesTheSecondExactlyWhen(a, c, key, path, write);
    } else if Combine(a, c, key, path) {
      if a.Mapping? {
        MergeIsAssociativeExactlyWhen(a.entries, b, c, path + [key], write);
      } else {
        MergingIsAssociative(IdentityOf(key, write), a.items, b.items, c.items);
      }
    }
  }

  /** The marker's own key: one by one the replacement is all that is left. */
  lemma MarkerAssociatesExactlyWhen(a: map<string, Value>, b: Value, c: Value, bc: Value, key: string,
                                    path: seq<string>, write: Value -> string)
    requires b.Mapping? && c.Mapping? && key in c.entries && c.entries[key].Override?
    requires bc == Mapping(Merge(b.entries, c, path, write))
    ensures c.entries[key].replacement == Entry(a, bc, key, path, write)
       <==> MarkerIsSpent(a, c.entries[key].replacement, key, path, write)
  {
    var r := c.entries[key].replacement;
    MergeLookup(b.entries, c, path, write, key);
    if r.Some? {
      var v := r.value;
      assert bc.entries[key] == v;
      if v.Override? {
        if v.replacement.Some? { NoMarkerWrapsItself(v.replacement.value); }
      } else if key in a {
        MergeGivesTheSecondExactlyWhen(a[key], v, key, path, write);
      }
    }
  }

  lemma {:induction false} EntryAssociatesExactlyWhen(a: map<string, Value>, b: Value, c: Value, bc: Value, key: string,
                                                      path: seq<string>, write: Value -> string)
    requires b.Mapping? && c.Mapping?
    requires bc == Mapping(Merge(b.entries, c, path, write))
    ensures Entry(Merge(a, b, path, write), c, key, path, write) == Entry(a, bc, key, path, write)
       <==> (key in c.entries ==> EntryAssociates(a, b, c, key, path, write))
    decreases b, 0
  {
    MergeLookup(a, b, path, write, key);
    MergeLookup(b.entries, c, path, write, key);
    if key in c.entries && c.entries[key].Override? {
      MarkerAssociatesExactlyWhen(a, b, c, bc, key, path, write);
    } else if key in a && key in b.entries && !b.entries[key].Override? && key in c.entries {
      AssociatesExactlyWhen(a[key], b.entries[key], c.entries[key], key, path, write);
    }
  }

  /** Merging the last two documents first gives the same as merging one by one exactly when, key by key,
      no value is forgotten in the middle and no marker is spent or overtaken too early: the outer values do
      not combine, or the middle one combines with them, or the first adds nothing to the last. */
  lemma {:induction false} MergeIsAssociativeExactlyWhen(a: map<string, Value>, b: Value, c: Value, path: seq<string>,
                                                         write: Value -> string)
    requires b.Mapping? && c.Mapping?
    ensures Merge(Merge(a, b, path, write), c, path, write)
         == Merge(a, Mapping(Merge(b.entries, c, path, write)), path, write)
       <==> AssociateEverywhere(a, b, c, path, write)
    decreases b, 1
  {
    var left := Merge(Merge(a, b, path, write), c, path, write);
    var bc := Mapping(Merge(b.entries, c, path, write));
    var right := Merge(a, bc, path, write);
    forall key
      ensures Lookup(left, key) == Lookup(right, key)
         <==> (key in c.entries ==> EntryAssociates(a, b, c, key, path, write))
    {
      MergeLookup(Merge(a, b, path, write), c, path, write, key);
      MergeLookup(a, bc, path, write, key);
      EntryAssociatesExactlyWhen(a, b, c, bc, key, path, write);
    }
    if AssociateEverywhere(a, b, c, path, write) {
      SameLookups(left, right);
    }
  }

  /** The empty document is the identity on both sides. */
  lemma EmptyIsIdentity(m: map<string, Value>, path: seq<string>, write: Value -> string)
    requires Plain(Mapping(m))
    ensures Merge(map[], Mapping(m), path, write) == m == Merge(m, Mapping(map[]), path, write)
  {
    var left, right := Merge(map[], Mapping(m), path, write), Merge(m, Mapping(map[]), path, write);
    forall key ensures Lookup(left, key) == Lookup(m, key) == Lookup(right, key) {
      PlainLookup(map[], Mapping(m), path, write, key);
      PlainLookup(m, Mapping(map[]), path, write, key);
    }
    SameLookups(left, m);
    SameLookups(right, m);
  }

  // ---------------------------------------------------------------------------------------------
  // Documents whose kinds agree
  // ---------------------------------------------------------------------------------------------

  datatype Kind = ScalarKind | ListKind | MappingKind

  function KindOf(v: Value): Kind {
    if v.Mapping? then MappingKind else if v.List? then ListKind else ScalarKind
  }

  /** At every path the document has the kind that `kinds` gives it. */
  predicate Follows(v: Value, kinds: seq<string> -> Kind, path: seq<string>) {
    v.Mapping? ==> forall key :: key in v.entries ==>
      KindOf(v.entries[key]) == kinds(path + [key]) && Follows(v.entries[key], kinds, path + [key])
  }

  lemma {:induction false} AgreeingKindsAssociate(a: Value, b: Value, c: Value, kinds: seq<string> -> Kind, key: string,
                                                  path: seq<string>, write: Value -> string)
    requires KindOf(a) == KindOf(b) == KindOf(c) && Plain(b) && Plain(c)
    requires Follows(a, kinds, path + [key]) && Follows(b, kinds, path + [key]) && Follows(c, kinds, path + [key])
    ensures Associates(a, b, c, key, path, write)
    decreases b
  {
    if a.Mapping? {
      var p := path + [key];
      forall k | k in c.entries ensures EntryAssociates(a.entries, b, c, k, p, write) {
        assert Plain(c.entries[k]) && (k in b.entries ==> Plain(b.entries[k]));
        if k in a.entries && k in b.entries {
          AgreeingKindsAssociate(a.entries[k], b.entries[k], c.entries[k], kinds, k, p, write);
        }
      }
    }
  }

  /** When kinds agree, a merge is associative. */
  lemma AgreeingKindsMergeAssociatively(a: map<string, Value>, b: Value, c: Value, kinds: seq<string> -> Kind,
                                        path: seq<string>, write: Value -> string)
    requires b.Mapping? && c.Mapping? && Plain(Mapping(a)) && Plain(b) && Plain(c)
    requires Follows(Mapping(a), kinds, path) && Follows(b, kinds, path) && Follows(c, kinds, path)
    ensures Merge(Merge(a, b, path, write), c, path, write)
         == Merge(a, Mapping(Merge(b.entries, c, path, write)), path, write)
  {
    forall key | key in c.entries ensures EntryAssociates(a, b, c, key, path, write) {
      assert Plain(c.entries[key]) && (key in b.entries ==> Plain(b.entries[key]));
      if key in a && key in b.entries {
        assert Follows(Mapping(a).entries[key], kinds, path + [key]);
        AgreeingKindsAssociate(a[key], b.entries[key], c.entries[key], kinds, key, path, write);
      }
    }
    MergeIsAssociativeExactlyWhen(a, b, c, path, write);
  }

  /** The merge follows the same kinds. */
  lemma {:induction false} MergeFollows(a: map<string, Value>, b: Value, kinds: seq<string> -> Kind, path: seq<string>,
                                        write: Value -> string)
    requires b.Mapping? && Plain(b) && Follows(Mapping(a), kinds, path) && Follows(b, kinds, path)
    ensures Follows(Mapping(Merge(a, b, path, write)), kinds, path)
    decreases b
  {
    var m := Merge(a, b, path, write);
    forall key | key in m ensures KindOf(m[key]) == kinds(path + [key]) && Follows(m[key], kinds, path + [key]) {
      PlainLookup(a, b, path, write, key);
      if key in a {
        assert KindOf(Mapping(a).entries[key]) == kinds(path + [key]);
        assert Follows(Mapping(a).entries[key], kinds, path + [key]);
      }
      if key in a && key in b.entries && a[key].Mapping? {
        MergeFollows(a[key].entries, b.entries[key], kinds, path + [key], write);
      }
    }
  }

  // ---------------------------------------------------------------------------------------------
  // Folding files
  // ---------------------------------------------------------------------------------------------

  predicate AllMappings(documents: seq<Value>) {
    forall i :: 0 <= i < |documents| ==> documents[i].Mapping?
  }

  function Fold(documents: seq<Value>, write: Value -> string): map<string, Value>
    requires AllMappings(documents)
  {
    if |documents| == 0 then map[]
    else Merge(Fold(documents[..|documents| - 1], write), documents[|documents| - 1], [], write)
  }

  predicate Uniform(documents: seq<Value>, kinds: seq<string> -> Kind) {
    forall i :: 0 <= i < |documents| ==>
      documents[i].Mapping? && Plain(documents[i]) && Follows(documents[i], kinds, [])
  }

  lemma {:induction false} FoldIsUniform(documents: seq<Value>, kinds: seq<string> -> Kind, write: Value -> string)
    requires Uniform(documents, kinds)
    ensures Plain(Mapping(Fold(documents, write))) && Follows(Mapping(Fold(documents, write)), kinds, [])
  {
    if |documents| > 0 {
      var front, last := documents[..|documents| - 1], documents[|documents| - 1];
      FoldIsUniform(front, kinds, write);
      MergedIsPlain(Fold(front, write), last, [], write);
      MergeFollows(Fold(front, write), last, kinds, [], write);
    }
  }

  lemma {:induction false} UniformOverlaysCanBeMergedFirst(files: seq<Value>, overlays: seq<Value>,
                                                           kinds: seq<string> -> Kind, write: Value -> string)
    requires Uniform(files, kinds) && Uniform(overlays, kinds)
    ensures Fold(files + overlays, write) == Merge(Fold(files, write), Mapping(Fold(overlays, write)), [], write)
  {
    FoldIsUniform(files, kinds, write);
    if |overlays| == 0 {
      assert files + overlays == files;
      EmptyIsIdentity(Fold(files, write), [], write);
    } else {
      var front, last := overlays[..|overlays| - 1], overlays[|overlays| - 1];
      assert (files + overlays)[..|files + overlays| - 1] == files + front;
      UniformOverlaysCanBeMergedFirst(files, front, kinds, write);
      FoldIsUniform(front, kinds, write);
      AgreeingKindsMergeAssociatively(Fold(files, write), Mapping(Fold(front, write)), last, kinds, [], write);
    }
  }

  /** The value at a path of keys. */
  function At(v: Value, path: seq<string>): Option<Value> {
    if |path| == 0 then Some(v)
    else if v.Mapping? && path[0] in v.entries then At(v.entries[path[0]], path[1..])
    else None
  }

  /** The two documents have the same kind of value at every path they share. */
  ghost predicate KindsAgree(v: Value, w: Value) {
    forall path :: At(v, path).Some? && At(w, path).Some? ==> KindOf(At(v, path).value) == KindOf(At(w, path).value)
  }

  ghost predicate AllAgree(documents: seq<Value>) {
    && (forall i :: 0 <= i < |documents| ==> documents[i].Mapping? && Plain(documents[i]))
    && (forall i, j :: 0 <= i < |documents| && 0 <= j < |documents| ==> KindsAgree(documents[i], documents[j]))
  }

  lemma {:induction false} AtSnoc(v: Value, path: seq<string>, key: string)
    requires At(v, path).Some? && At(v, path).value.Mapping? && key in At(v, path).value.entries
    ensures At(v, path + [key]) == Some(At(v, path).value.entries[key])
    decreases |path|
  {
    if |path| == 0 {
      assert path + [key] == [key] && [key][1..] == [];
    } else {
      assert (path + [key])[1..] == path[1..] + [key];
      AtSnoc(v.entries[path[0]], path[1..], key);
    }
  }

  ghost predicate Occurs(documents: seq<Value>, path: seq<string>, kind: Kind) {
    exists i :: 0 <= i < |documents| && At(documents[i], path).Some? && KindOf(At(documents[i], path).value) == kind
  }

  ghost function CommonKinds(documents: seq<Value>): seq<string> -> Kind {
    (path: seq<string>) =>
      if Occurs(documents, path, MappingKind) then MappingKind
      else if Occurs(documents, path, ListKind) then ListKind
      else ScalarKind
  }

  lemma {:induction false} AgreeingFollowsCommonKinds(documents: seq<Value>, i: nat, path: seq<string>, v: Value)
    requires AllAgree(documents) && i < |documents| && At(documents[i], path) == Some(v)
    ensures Follows(v, CommonKinds(documents), path)
    decreases v
  {
    var kinds := CommonKinds(documents);
    if v.Mapping? {
      forall key | key in v.entries
        ensures KindOf(v.entries[key]) == kinds(path + [key]) && Follows(v.entries[key], kinds, path + [key])
      {
        AtSnoc(documents[i], path, key);
        AgreeingFollowsCommonKinds(documents, i, path + [key], v.entries[key]);
        TheKindAt(documents, i, path + [key]);
      }
    }
  }

  lemma TheKindAt(documents: seq<Value>, i: nat, path: seq<string>)
    requires AllAgree(documents) && i < |documents| && At(documents[i], path).Some?
    ensures CommonKinds(documents)(path) == KindOf(At(documents[i], path).value)
  {
    var kind := KindOf(At(documents[i], path).value);
    assert Occurs(documents, path, kind);
    forall other | Occurs(documents, path, other) ensures other == kind {
      var j :| 0 <= j < |documents| && At(documents[j], path).Some? && KindOf(At(documents[j], path).value) == other;
      assert KindsAgree(documents[i], documents[j]);
    }
  }

  lemma AgreeingIsUniform(documents: seq<Value>)
    requires AllAgree(documents)
    ensures Uniform(documents, CommonKinds(documents))
  {
    forall i | 0 <= i < |documents| ensures Follows(documents[i], CommonKinds(documents), []) {
      AgreeingFollowsCommonKinds(documents, i, [], documents[i]);
    }
  }

  /** When the documents agree on the kind of value at every path they share, folding the files one by
      one is the same as laying a pre-merged overlay over the files before it. */
  lemma OverlaysCanBeMergedFirst(files: seq<Value>, overlays: seq<Value>, write: Value -> string)
    requires AllAgree(files + overlays)
    ensures AllMappings(files) && AllMappings(overlays)
    ensures Fold(files + overlays, write) == Merge(Fold(files, write), Mapping(Fold(overlays, write)), [], write)
  {
    var all := files + overlays;
    AgreeingIsUniform(all);
    assert forall i :: 0 <= i < |files| ==> files[i] == all[i];
    assert forall i :: 0 <= i < |overlays| ==> overlays[i] == all[|files| + i];
    UniformOverlaysCanBeMergedFirst(files, overlays, CommonKinds(all), write);
  }

  /** Unwraps the markers left in a merged document; a removed value becomes null. */
  function StripOverrides(v: Value): Value {
    match v
    case Text(_) => v
    case Other(_) => v
    case List(items) => List(seq(|items|, i requires 0 <= i < |items| => StripOverrides(items[i])))
    case Mapping(entries) => Mapping(map key | key in entries :: StripOverrides(entries[key]))
    case Override(None) => Other("None")
    case Override(Some(w)) => StripOverrides(w)
  }

  lemma {:induction false} StrippingLeavesPlainAlone(v: Value)
    requires Plain(v)
    ensures StripOverrides(v) == v
  {
    match v
    case List(items) =>
      forall i | 0 <= i < |items| ensures StripOverrides(items[i]) == items[i] {
        StrippingLeavesPlainAlone(items[i]);
      }
    case Mapping(entries) =>
      forall key | key in entries ensures StripOverrides(entries[key]) == entries[key] {
        StrippingLeavesPlainAlone(entries[key]);
      }
    case _ =>
  }

  datatype Result<T> = Ok(value: T) | NotAMapping(file: nat)

  /** The files that are not empty. */
  function Present(documents: seq<Option<Value>>): seq<Value> {
    if |documents| == 0 then []
    else
      var last := documents[|documents| - 1];
      Present(documents[..|documents| - 1]) + (if last.None? then [] else [last.value])
  }

  predicate Acceptable(document: Option<Value>) {
    document.None? || document.value.Mapping?
  }

  lemma PresentNext(documents: seq<Option<Value>>, n: nat)
    requires n < |documents|
    ensures documents[n].None? ==> Present(documents[..n + 1]) == Present(documents[..n])
    ensures documents[n].Some? ==> Present(documents[..n + 1]) == Present(documents[..n]) + [documents[n].value]
  {
    assert documents[..n + 1][..n] == documents[..n];
  }

  lemma FoldNext(documents: seq<Value>, last: Value, write: Value -> string)
    requires AllMappings(documents) && last.Mapping?
    ensures AllMappings(documents + [last])
    ensures Fold(documents + [last], write) == Merge(Fold(documents, write), last, [], write)
  {
    assert (documents + [last])[..|documents|] == documents;
  }

  /** Merges the parsed files from left to right; empty files are skipped and the first one that is not
      a mapping is reported. */
  method ComposeConfig(documents: seq<Option<Value>>, write: Value -> string) returns (result: Result<Value>)
    ensures result.Ok? ==>
      && (forall i :: 0 <= i < |documents| ==> Acceptable(documents[i]))
      && AllMappings(Present(documents))
      && result.value == StripOverrides(Mapping(Fold(Present(documents), write)))
    ensures result.NotAMapping? ==>
      && result.file < |documents| && !Acceptable(documents[result.file])
      && (forall i :: 0 <= i < result.file ==> Acceptable(documents[i]))
  {
    var merged: map<string, Value> := map[];
    for n := 0 to |documents|
      invariant forall i :: 0 <= i < n ==> Acceptable(documents[i])
      invariant AllMappings(Present(documents[..n])) && merged == Fold(Present(documents[..n]), write)
    {
      var document := documents[n];
      PresentNext(documents, n);
      if document.None? {
        continue;
      }
      if !document.value.Mapping? {
        return NotAMapping(n);
      }
      FoldNext(Present(documents[..n]), document.value, write);
      merged := DeepMerge(merged, document.value, [], write);
    }
    assert documents[..|documents|] == documents;
    result := Ok(StripOverrides(Mapping(merged)));
  }

  // ---------------------------------------------------------------------------------------------
  // Repeated overlays
  // ---------------------------------------------------------------------------------------------

  /** No list that is merged by identity names the same identity twice. */
  predicate NoRepeats(v: Value, key: string, path: seq<string>, write: Value -> string) {
    match v
    case Mapping(entries) => forall k :: k in entries ==> NoRepeats(entries[k], k, path + [key], write)
    case List(items) => MergesSequences(key, path) ==> Distinct(Ids(IdentityOf(key, write), items))
    case _ => true
  }

  /** A value merged with itself is unchanged exactly when it has no such repeats. */
  lemma {:induction false} SelfMergeUnchangedExactlyWhen(v: Value, key: string, path: seq<string>,
                                                         write: Value -> string)
    requires Plain(v)
    ensures MergeValue(v, v, key, path, write) == v <==> NoRepeats(v, key, path, write)
  {
    if v.Mapping? {
      var m, p := Merge(v.entries, v, path + [key], write), path + [key];
      forall k
        ensures Lookup(m, k) == Lookup(v.entries, k) <==> (k in v.entries ==> NoRepeats(v.entries[k], k, p, write))
      {
        PlainLookup(v.entries, v, p, write, k);
        if k in v.entries {
          SelfMergeUnchangedExactlyWhen(v.entries[k], k, p, write);
        }
      }
      if NoRepeats(v, key, path, write) {
        SameLookups(m, v.entries);
      }
    } else if v.List? {
      SelfMergeExactlyWhen(IdentityOf(key, write), v.items);
    }
  }

  lemma {:induction false} RepeatedValueChangesNothing(x: Value, y: Value, key: string, path: seq<string>,
                                                       write: Value -> string)
    requires Plain(x) && Plain(y) && NoRepeats(y, key, path, write)
    ensures var once := MergeValue(x, y, key, path, write); MergeValue(once, y, key, path, write) == once
    decreases y, 1
  {
    if x.Mapping? && y.Mapping? {
      RepeatedOverlayChangesNothing(x.entries, y, path + [key], write);
    } else if Combine(x, y, key, path) {
      MergingAbsorbsRepeats(IdentityOf(key, write), x.items, y.items);
    } else {
      SelfMergeUnchangedExactlyWhen(y, key, path, write);
    }
  }

  /** Laying the same overlay on a second time changes nothing. */
  lemma {:induction false} RepeatedOverlayChangesNothing(base: map<string, Value>, overlay: Value, path: seq<string>,
                                                         write: Value -> string)
    requires overlay.Mapping? && Plain(Mapping(base)) && Plain(overlay)
    requires forall key :: key in overlay.entries ==> NoRepeats(overlay.entries[key], key, path, write)
    ensures var once := Merge(base, overlay, path, write); Merge(once, overlay, path, write) == once
    decreases overlay, 0
  {
    var once := Merge(base, overlay, path, write);
    var twice := Merge(once, overlay, path, write);
    forall key ensures Lookup(once, key) == Lookup(twice, key) {
      PlainLookup(base, overlay, path, write, key);
      PlainLookup(once, overlay, path, write, key);
      if key in overlay.entries {
        assert Plain(overlay.entries[key]);
        if key in base {
          assert Plain(Mapping(base).entries[key]);
          RepeatedValueChangesNothing(base[key], overlay.entries[key], key, path, write);
        } else {
          SelfMergeUnchangedExactlyWhen(overlay.entries[key], key, path, write);
        }
      }
    }
    SameLookups(once, twice);
  }

  // ---------------------------------------------------------------------------------------------
  // Where the algebra stops
  // ---------------------------------------------------------------------------------------------

  lemma OneKey(x: Value, y: Value, key: string, path: seq<string>, write: Value -> string)
    requires Plain(x) && Plain(y)
    ensures Merge(map[key := x], Mapping(map[key := y]), path, write) == map[key := MergeValue(x, y, key, path, write)]
  { }

  /** A mapping, then a scalar, then a mapping for one key: read one by one, the first is forgotten;
      with the last two merged first, it is not. */
  lemma ScalarInTheMiddleBreaksIt(key: string, inner: string, s: Value, path: seq<string>, write: Value -> string)
    requires s.Text? || s.Other?
    ensures var a, b := map[key := Mapping(map[inner := s])], Mapping(map[key := s]);
            var c := Mapping(map[key := Mapping(map[])]);
            && Merge(Merge(a, b, path, write), c, path, write) == map[key := Mapping(map[])]
            && Merge(a, Mapping(Merge(b.entries, c, path, write)), path, write) == a
  {
    var e := Mapping(map[]);
    var a, b, c := map[key := Mapping(map[inner := s])], Mapping(map[key := s]), Mapping(map[key := e]);
    assert Plain(s) && Plain(e) && Plain(Mapping(map[inner := s]));
    OneKey(a[key], s, key, path, write);
    OneKey(s, e, key, path, write);
    EmptyIsIdentity(map[inner := s], path + [key], write);
    OneKey(a[key], e, key, path, write);
  }

  /** A removal is lost when the overlay that asks for it is merged into another overlay first. */
  lemma RemovalIsLostByMergingFirst(key: string, s: Value, path: seq<string>, write: Value -> string)
    requires s.Text? || s.Other?
    ensures var a, b, c := map[key := s], Mapping(map[]), Mapping(map[key := Override(None)]);
            && Merge(Merge(a, b, path, write), c, path, write) == map[]
            && Merge(a, Mapping(Merge(b.entries, c, path, write)), path, write) == a
  {
    var a, b, c := map[key := s], Mapping(map[]), Mapping(map[key := Override(None)]);
    assert Plain(s);
    EmptyIsIdentity(a, path, write);
    assert Merge(a, c, path, write) == map[];
    assert Merge(b.entries, c, path, write) == map[];
  }

  /** The short forms `source:target` and `source:target:mode` and the long form with the same target
      are the same volume. */
  lemma VolumesMeetAtTheTarget(source: string, target: string, mode: string, long: map<string, Value>,
                               write: Value -> string)
    requires ':' !in source && ':' !in target
    requires "target" in long && long["target"] == Text(target)
    ensures SequenceIdentity("volumes", Text(source + (":" + target)), write) == target
    ensures SequenceIdentity("volumes", Text(source + (":" + (target + (":" + mode)))), write) == target
    ensures SequenceIdentity("volumes", Mapping(long), write) == target
  {
    forall tail | tail == "" || tail == ":" + mode
      ensures VolumeTarget(source + (":" + (target + tail))) == target
    {
      var entry := source + (":" + (target + tail));
      IndexOfIs(source, ":" + (target + tail), ':');
      IndexOfIs(target, tail, ':');
      assert entry[|source| + 1..] == target + tail;
    }
    assert target + "" == target;
  }

  // ---------------------------------------------------------------------------------------------
  // What a merge does at a path, case by case
  // ---------------------------------------------------------------------------------------------

  /** Wherever both documents have a mapping at the same path, the merge has the merge of the two there. */
  lemma {:induction false} MappingsMergeAtEveryPath(base: map<string, Value>, overlay: Value, path: seq<string>,
                                                    sub: seq<string>, b: map<string, Value>, o: map<string, Value>,
                                                    write: Value -> string)
    requires overlay.Mapping?
    requires At(Mapping(base), sub) == Some(Mapping(b)) && At(overlay, sub) == Some(Mapping(o))
    ensures At(Mapping(Merge(base, overlay, path, write)), sub)
         == Some(Mapping(Merge(b, Mapping(o), path + sub, write)))
    decreases |sub|
  {
    if |sub| == 0 {
      assert path + sub == path;
    } else {
      var key, rest := sub[0], sub[1..];
      MergeLookup(base, overlay, path, write, key);
      assert base[key].Mapping? && overlay.entries[key].Mapping?;
      MappingsMergeAtEveryPath(base[key].entries, overlay.entries[key], path + [key], rest, b, o, write);
      assert path + [key] + rest == path + sub;
    }
  }

  predicate IsScalar(v: Value) {
    v.Text? || v.Other?
  }

  /** One key: what only one document has stays; a marker replaces or removes; two mappings are merged; and
      the overlay's value wins against a value of another kind, and if it is a scalar always. */
  lemma MergedKey(b: map<string, Value>, o: map<string, Value>, key: string, path: seq<string>, write: Value -> string)
    ensures var m := Merge(b, Mapping(o), path, write);
            && (key !in o && key in b ==> key in m && m[key] == b[key])
            && (key !in o && key !in b ==> key !in m)
            && (key in o && o[key] == Override(None) ==> key !in m)
            && (forall v :: key in o && o[key] == Override(Some(v)) ==> key in m && m[key] == v)
            && (key in o && key !in b && !o[key].Override? ==> key in m && m[key] == o[key])
            && (key in o && IsScalar(o[key]) ==> key in m && m[key] == o[key])
            && (key in o && key in b && o[key].List? && !b[key].List? ==> key in m && m[key] == o[key])
            && (key in o && key in b && o[key].Mapping? && !b[key].Mapping? ==> key in m && m[key] == o[key])
            && (key in o && key in b && o[key].Mapping? && b[key].Mapping? ==>
                  key in m && m[key] == Mapping(Merge(b[key].entries, o[key], path + [key], write)))
  {
    MergeLookup(b, Mapping(o), path, write, key);
  }

  /** `r` holds every identity of `x` and `y` once, with the entry of `y` wherever `y` has one. */
  ghost predicate UnitedByIdentity(key: string, x: seq<Value>, y: seq<Value>, r: seq<Value>, write: Value -> string) {
    && (forall v :: v in x || v in y ==> IdentityIn(key, v, r, write))
    && (forall w :: w in r ==> w in x || w in y)
    && (forall w :: w in r && IdentityIn(key, w, y, write) ==> w in y)
    && IdentitiesDiffer(key, r, write)
  }

  ghost predicate IdentityIn(key: string, v: Value, entries: seq<Value>, write: Value -> string) {
    exists w :: w in entries && SameIdentity(key, v, w, write)
  }

  predicate IdentitiesDiffer(key: string, r: seq<Value>, write: Value -> string) {
    forall i, j :: 0 <= i < j < |r| ==> !SameIdentity(key, r[i], r[j], write)
  }

  predicate SameIdentity(key: string, v: Value, w: Value, write: Value -> string) {
    SequenceIdentity(key, v, write) == SequenceIdentity(key, w, write)
  }

  lemma SequencesAreUnited(key: string, x: seq<Value>, y: seq<Value>, write: Value -> string)
    ensures UnitedByIdentity(key, x, y, MergeSequence(key, x, y, write), write)
  {
    var id, r := IdentityOf(key, write), MergeSequence(key, x, y, write);
    IdsAppend(id, x, y);
    forall v | v in x || v in y ensures IdentityIn(key, v, r, write) {
      EntryIsUnited(key, x, y, v, write);
    }
    forall w | w in r ensures w in x || w in y {
      var i :| 0 <= i < |r| && r[i] == w;
      DedupSelects(id, x + y, i);
    }
    forall w | w in r && IdentityIn(key, w, y, write) ensures w in y {
      var v :| v in y && SameIdentity(key, w, v, write);
      OverlayEntryWins(key, x, y, v, w, write);
    }
    forall i, j | 0 <= i < j < |r| ensures !SameIdentity(key, r[i], r[j], write) {
      assert Ids(id, r)[i] != Ids(id, r)[j];
    }
  }

  lemma EntryIsUnited(key: string, x: seq<Value>, y: seq<Value>, v: Value, write: Value -> string)
    requires v in x + y
    ensures IdentityIn(key, v, MergeSequence(key, x, y, write), write)
  {
    var id, r := IdentityOf(key, write), MergeSequence(key, x, y, write);
    var i :| 0 <= i < |x + y| && (x + y)[i] == v;
    assert Ids(id, x + y)[i] == id(v);
    assert id(v) in Firsts(Ids(id, x + y));
    var j :| 0 <= j < |r| && Ids(id, r)[j] == id(v);
    assert r[j] in r && SameIdentity(key, v, r[j], write);
  }

  lemma OverlayEntryWins(key: string, x: seq<Value>, y: seq<Value>, v: Value, w: Value, write: Value -> string)
    requires w in MergeSequence(key, x, y, write) && v in y && SameIdentity(key, v, w, write)
    ensures w in y
  {
    var id, r := IdentityOf(key, write), MergeSequence(key, x, y, write);
    var j :| 0 <= j < |r| && r[j] == w;
    var i :| 0 <= i < |y| && y[i] == v;
    assert Ids(id, y)[i] == id(w) && Ids(id, r)[j] == id(w);
    assert w == Last(id, x + y, id(w));
    LastAppend(id, x, y, id(w));
  }

  /** Below `services` the lists of these nine keys are united by identity. */
  lemma ServiceListsAreUnited(b: map<string, Value>, o: map<string, Value>, key: string, path: seq<string>,
                              x: seq<Value>, y: seq<Value>, write: Value -> string)
    requires |path| > 0 && path[0] == "services"
    requires key in {"volumes", "env_file", "ports", "expose", "configs", "secrets", "devices", "dns", "tmpfs"}
    requires Lookup(b, key) == Some(List(x)) && Lookup(o, key) == Some(List(y))
    ensures var m := Merge(b, Mapping(o), path, write);
            key in m && m[key].List? && UnitedByIdentity(key, x, y, m[key].items, write)
  {
    MergeLookup(b, Mapping(o), path, write, key);
    SequencesAreUnited(key, x, y, write);
  }

  /** Every other list of the base is replaced by the overlay's. */
  lemma OtherListsAreReplaced(b: map<string, Value>, o: map<string, Value>, key: string, path: seq<string>,
                              x: seq<Value>, y: seq<Value>, write: Value -> string)
    requires |path| == 0 || path[0] != "services"
          || key !in {"volumes", "env_file", "ports", "expose", "configs", "secrets", "devices", "dns", "tmpfs"}
    requires Lookup(b, key) == Some(List(x)) && Lookup(o, key) == Some(List(y))
    ensures Lookup(Merge(b, Mapping(o), path, write), key) == Some(List(y))
  {
    MergeLookup(b, Mapping(o), path, write, key);
  }

  /** In whole documents: the volumes of a service, and its other lists. */
  lemma ServicesOfTwoFiles(first: map<string, Value>, second: Value, service: string, b: map<string, Value>,
                           o: map<string, Value>, key: string, x: seq<Value>, y: seq<Value>, write: Value -> string)
    requires second.Mapping?
    requires At(Mapping(first), ["services", service]) == Some(Mapping(b))
    requires At(second, ["services", service]) == Some(Mapping(o))
    requires Lookup(b, key) == Some(List(x)) && Lookup(o, key) == Some(List(y))
    ensures exists m, r ::
              && At(Mapping(Merge(first, second, [], write)), ["services", service]) == Some(Mapping(m))
              && Lookup(m, key) == Some(List(r))
              && if key in {"volumes", "env_file", "ports", "expose", "configs", "secrets", "devices", "dns", "tmpfs"}
                 then UnitedByIdentity(key, x, y, r, write)
                 else r == y
  {
    var path := ["services", service];
    MappingsMergeAtEveryPath(first, second, [], path, b, o, write);
    assert [] + path == path;
    var m := Merge(b, Mapping(o), path, write);
    if key in {"volumes", "env_file", "ports", "expose", "configs", "secrets", "devices", "dns", "tmpfs"} {
      ServiceListsAreUnited(b, o, key, path, x, y, write);
    } else {
      OtherListsAreReplaced(b, o, key, path, x, y, write);
    }
    assert At(Mapping(Merge(first, second, [], write)), path) == Some(Mapping(m));
    assert Lookup(m, key) == Some(List(m[key].items));
  }

  /** Apart from volumes, a string is its own identity, and anything else is identified as it is written. */
  lemma OtherIdentities(key: string, v: Value, write: Value -> string)
    requires key != "volumes"
    ensures SequenceIdentity(key, v, write) == if v.Text? then v.text else write(v)
  { }

  /** A volume without a colon is its own target; a long form without a target is identified as written. */
  lemma OtherVolumes(entry: string, long: map<string, Value>, write: Value -> string)
    requires ':' !in entry && "target" !in long
    ensures SequenceIdentity("volumes", Text(entry), write) == entry
    ensures SequenceIdentity("volumes", Mapping(long), write) == write(Mapping(long))
  {
    IndexOfIs(entry, "", ':');
    assert entry + "" == entry;
  }

  // ---------------------------------------------------------------------------------------------
  // What the fold and the stripping do
  // ---------------------------------------------------------------------------------------------

  /** Empty files are skipped and all others kept, in order. */
  lemma PresentKeepsOrder(a: seq<Option<Value>>, v: Value)
    ensures Present([]) == []
    ensures Present(a + [Some(v)]) == Present(a) + [v]
    ensures Present(a + [None]) == Present(a)
  {
    assert (a + [Some(v)])[..|a|] == a && (a + [None])[..|a|] == a;
    assert Present(a) + [] == Present(a);
  }

  /** Files are merged from left to right, starting from nothing. */
  lemma FoldOfFiles(documents: seq<Value>, last: Value, write: Value -> string)
    requires AllMappings(documents) && last.Mapping?
    ensures AllMappings(documents + [last]) && AllMappings([])
    ensures Fold([], write) == map[]
    ensures Fold(documents + [last], write) == Merge(Fold(documents, write), last, [], write)
  {
    FoldNext(documents, last, write);
  }

  /** No marker is left after stripping. */
  lemma {:induction false} StrippedIsPlain(v: Value)
    ensures Plain(StripOverrides(v))
  {
    match v
    case List(items) =>
      forall i | 0 <= i < |items| ensures Plain(StripOverrides(items[i])) { StrippedIsPlain(items[i]); }
    case Mapping(entries) =>
      forall key | key in entries ensures Plain(StripOverrides(entries[key])) { StrippedIsPlain(entries[key]); }
    case Override(Some(w)) => StrippedIsPlain(w);
    case _ =>
  }

  /** Values keep their place when markers are stripped: a replacement stands where its marker stood, and a
      removal that is left over becomes null. */
  lemma {:induction false} StrippingKeepsPlaces(v: Value, path: seq<string>)
    requires At(v, path).Some?
    ensures At(StripOverrides(v), path) == Some(StripOverrides(At(v, path).value))
    ensures At(v, path).value == Override(None) ==> At(StripOverrides(v), path) == Some(Other("None"))
    ensures forall w :: At(v, path).value == Override(Some(w)) && Plain(w) ==> At(StripOverrides(v), path) == Some(w)
    decreases |path|
  {
    if |path| > 0 {
      StrippingKeepsPlaces(v.entries[path[0]], path[1..]);
    } else if v.Override? && v.replacement.Some? && Plain(v.replacement.value) {
      StrippingLeavesPlainAlone(v.replacement.value);
    }
  }
}
