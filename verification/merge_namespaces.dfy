/**
 * The namespace-merging output strategy: `init` folds the root element of
 * every chunk to be merged into one reconciled root, `merge` writes the
 * document header and reconciled root once and then each chunk's inner
 * content, and `finish` closes the root.
 */
module MergeNamespaces {
  import opened Wrappers
  import opened XmlElement
  import KeyedUnion
  import SchemaLocation
  import SeqFacts

  /**
   * Reconstruction metadata of an XML chunk: its enclosing elements,
   * outermost first, and the range `[start, end)` of its inner content
   * within the chunk's own text.
   */
  datatype ChunkMeta = ChunkMeta(parents: seq<StartElement>, start: int, end: int)

  datatype Chunk = Chunk(content: string, meta: ChunkMeta)

  datatype MergeError = IllegalState | IllegalArgument

  /**
   * Per-document progress: the reconciled root (absent until the first
   * `init`), the metadata passed to `init` so far, whether the header and
   * root have been written, and everything written to the output so far.
   */
  datatype Strategy = Strategy(
    root: Option<StartElement>,
    initialized: seq<ChunkMeta>,
    headerWritten: bool,
    output: string)

  const Fresh: Strategy := Strategy(None, [], false, "")

  /** The bookkeeping every reachable strategy satisfies. */
  predicate Valid(s: Strategy) {
    && (s.root.None? <==> s.initialized == [])
    && (s.headerWritten ==> s.root.Some?)
    && (!s.headerWritten ==> s.output == "")
  }

  // ---------------------------------------------------------------- attributes

  /** Attributes are identified by their qualified name. */
  function AttributeKey(a: Attribute): (string, string) {
    (a.prefix, a.localName)
  }

  /** `xsi:schemaLocation`, whose value is merged pairwise instead of first-wins. */
  predicate IsSchemaLocation(a: Attribute) {
    a.prefix == "xsi" && a.localName == "schemaLocation"
  }

  /** Index of the attribute named like `a`, or -1. */
  function FindAttribute(attrs: seq<Attribute>, a: Attribute): (i: int)
    ensures -1 <= i < |attrs|
    ensures i >= 0 ==> AttributeKey(attrs[i]) == AttributeKey(a)
    ensures i < 0 <==> !KeyedUnion.HasKey(attrs, AttributeKey, AttributeKey(a))
  {
    if attrs == [] then -1
    else if AttributeKey(attrs[|attrs| - 1]) == AttributeKey(a) then |attrs| - 1
    else
      var i := FindAttribute(attrs[..|attrs| - 1], a);
      assert forall j | 0 <= j < |attrs| - 1 :: attrs[..|attrs| - 1][j] == attrs[j];
      i
  }

  /**
   * Adds one attribute to the reconciled list: a new name is appended, an
   * `xsi:schemaLocation` already present gets its pairs merged in place,
   * and any other name already present keeps its first value.
   */
  function MergeAttribute(acc: seq<Attribute>, a: Attribute): (r: seq<Attribute>)
    ensures KeyedUnion.HasKey(r, AttributeKey, AttributeKey(a))
    ensures !KeyedUnion.HasKey(acc, AttributeKey, AttributeKey(a)) ==> r == acc + [a]
    ensures KeyedUnion.HasKey(acc, AttributeKey, AttributeKey(a)) ==>
      && |r| == |acc|
      && (forall i | 0 <= i < |acc| :: AttributeKey(r[i]) == AttributeKey(acc[i]))
      && (forall i | 0 <= i < |acc| && !IsSchemaLocation(acc[i]) :: r[i] == acc[i])
    ensures KeyedUnion.HasKey(acc, AttributeKey, AttributeKey(a)) && IsSchemaLocation(a) ==>
      var i := FindAttribute(acc, a);
      && 0 <= i < |acc| && IsSchemaLocation(acc[i])
      && r == acc[i := acc[i].(value := SchemaLocation.Merge(acc[i].value, a.value))]
    ensures KeyedUnion.HasKey(acc, AttributeKey, AttributeKey(a)) && !IsSchemaLocation(a) ==> r == acc
  {
    var i := FindAttribute(acc, a);
    if i < 0 then
      var r := acc + [a];
      assert AttributeKey(r[|acc|]) == AttributeKey(a);
      r
    else if IsSchemaLocation(a) then
      var r := acc[i := acc[i].(value := SchemaLocation.Merge(acc[i].value, a.value))];
      assert AttributeKey(r[i]) == AttributeKey(a);
      r
    else
      acc
  }

  /** Adds the attributes of one more root element, in order. */
  function MergeAttributes(acc: seq<Attribute>, attrs: seq<Attribute>): (r: seq<Attribute>)
    ensures |acc| <= |r|
    ensures forall i | 0 <= i < |acc| :: AttributeKey(r[i]) == AttributeKey(acc[i])
    ensures forall i | 0 <= i < |acc| && !IsSchemaLocation(acc[i]) :: r[i] == acc[i]
    ensures forall a | a in attrs :: KeyedUnion.HasKey(r, AttributeKey, AttributeKey(a))
    ensures forall i | |acc| <= i < |r| :: !KeyedUnion.HasKey(acc, AttributeKey, AttributeKey(r[i]))
    ensures forall i | |acc| <= i < |r| :: KeyedUnion.HasKey(attrs, AttributeKey, AttributeKey(r[i]))
    ensures KeyedUnion.DistinctKeys(acc, AttributeKey) ==> KeyedUnion.DistinctKeys(r, AttributeKey)
    decreases |attrs|
  {
    if attrs == [] then acc
    else
      var next := MergeAttribute(acc, attrs[0]);
      var r := MergeAttributes(next, attrs[1..]);
      MergeAttributesStep(acc, attrs, next, r);
      r
  }

  lemma MergeAttributesStep(acc: seq<Attribute>, attrs: seq<Attribute>, next: seq<Attribute>, r: seq<Attribute>)
    requires attrs != [] && next == MergeAttribute(acc, attrs[0])
    requires |next| <= |r|
    requires forall i | 0 <= i < |next| :: AttributeKey(r[i]) == AttributeKey(next[i])
    requires forall i | 0 <= i < |next| && !IsSchemaLocation(next[i]) :: r[i] == next[i]
    requires forall a | a in attrs[1..] :: KeyedUnion.HasKey(r, AttributeKey, AttributeKey(a))
    requires forall i | |next| <= i < |r| :: !KeyedUnion.HasKey(next, AttributeKey, AttributeKey(r[i]))
    requires forall i | |next| <= i < |r| :: KeyedUnion.HasKey(attrs[1..], AttributeKey, AttributeKey(r[i]))
    requires KeyedUnion.DistinctKeys(next, AttributeKey) ==> KeyedUnion.DistinctKeys(r, AttributeKey)
    ensures |acc| <= |r|
    ensures forall i | 0 <= i < |acc| :: AttributeKey(r[i]) == AttributeKey(acc[i])
    ensures forall i | 0 <= i < |acc| && !IsSchemaLocation(acc[i]) :: r[i] == acc[i]
    ensures forall a | a in attrs :: KeyedUnion.HasKey(r, AttributeKey, AttributeKey(a))
    ensures forall i | |acc| <= i < |r| :: !KeyedUnion.HasKey(acc, AttributeKey, AttributeKey(r[i]))
    ensures forall i | |acc| <= i < |r| :: KeyedUnion.HasKey(attrs, AttributeKey, AttributeKey(r[i]))
    ensures KeyedUnion.DistinctKeys(acc, AttributeKey) ==> KeyedUnion.DistinctKeys(r, AttributeKey)
  {
    var a := attrs[0];
    // the first |acc| entries of `r` keep their names, and their values unless schemaLocation
    forall i | 0 <= i < |acc| && !IsSchemaLocation(acc[i]) ensures r[i] == acc[i] {
      assert next[i] == acc[i];
    }
    // `r` has every name of `attrs`
    var j :| 0 <= j < |next| && AttributeKey(next[j]) == AttributeKey(a);
    assert AttributeKey(r[j]) == AttributeKey(a);
    forall x | x in attrs ensures KeyedUnion.HasKey(r, AttributeKey, AttributeKey(x)) {
      if x != a {
        assert x in attrs[1..];
      }
    }
    AppendedAttributes(acc, attrs, next, r);
    MergeAttributeKeepsDistinct(acc, a);
  }

  /** Entries past `acc` carry names new to `acc` and taken from `attrs`. */
  lemma AppendedAttributes(acc: seq<Attribute>, attrs: seq<Attribute>, next: seq<Attribute>, r: seq<Attribute>)
    requires attrs != [] && next == MergeAttribute(acc, attrs[0])
    requires |next| <= |r|
    requires forall i | 0 <= i < |next| :: AttributeKey(r[i]) == AttributeKey(next[i])
    requires forall i | |next| <= i < |r| :: !KeyedUnion.HasKey(next, AttributeKey, AttributeKey(r[i]))
    requires forall i | |next| <= i < |r| :: KeyedUnion.HasKey(attrs[1..], AttributeKey, AttributeKey(r[i]))
    ensures forall i | |acc| <= i < |r| :: !KeyedUnion.HasKey(acc, AttributeKey, AttributeKey(r[i]))
    ensures forall i | |acc| <= i < |r| :: KeyedUnion.HasKey(attrs, AttributeKey, AttributeKey(r[i]))
  {
    var a := attrs[0];
    forall i | |acc| <= i < |r|
      ensures !KeyedUnion.HasKey(acc, AttributeKey, AttributeKey(r[i]))
      ensures KeyedUnion.HasKey(attrs, AttributeKey, AttributeKey(r[i]))
    {
      var k := AttributeKey(r[i]);
      if i < |next| {
        assert next == acc + [a] && i == |acc|;
        assert k == AttributeKey(attrs[0]);
      } else {
        MergeAttributeKeepsKeys(acc, a, k);
        assert KeyedUnion.HasKey(attrs[1..], AttributeKey, k);
        var m :| 0 <= m < |attrs[1..]| && AttributeKey(attrs[1..][m]) == k;
        assert AttributeKey(attrs[m + 1]) == k;
      }
    }
  }

  /** Merging an attribute loses no name. */
  lemma MergeAttributeKeepsKeys(acc: seq<Attribute>, a: Attribute, k: (string, string))
    ensures KeyedUnion.HasKey(acc, AttributeKey, k) ==> KeyedUnion.HasKey(MergeAttribute(acc, a), AttributeKey, k)
  {
    if KeyedUnion.HasKey(acc, AttributeKey, k) {
      var m :| 0 <= m < |acc| && AttributeKey(acc[m]) == k;
      assert AttributeKey(MergeAttribute(acc, a)[m]) == k;
    }
  }

  lemma MergeAttributeKeepsDistinct(acc: seq<Attribute>, a: Attribute)
    ensures KeyedUnion.DistinctKeys(acc, AttributeKey) ==>
      KeyedUnion.DistinctKeys(MergeAttribute(acc, a), AttributeKey)
  {
    var next := MergeAttribute(acc, a);
    if KeyedUnion.DistinctKeys(acc, AttributeKey) && !KeyedUnion.HasKey(acc, AttributeKey, AttributeKey(a)) {
      forall i, k | 0 <= i < k < |next| ensures AttributeKey(next[i]) != AttributeKey(next[k]) {
        if k == |acc| {
          assert next[i] == acc[i];
        }
      }
    }
  }

  /** The values of the `xsi:schemaLocation` attributes among `attrs`, in order. */
  function SchemaValues(attrs: seq<Attribute>): seq<string> {
    if attrs == [] then []
    else
      var last := attrs[|attrs| - 1];
      SchemaValues(attrs[..|attrs| - 1]) + (if IsSchemaLocation(last) then [last.value] else [])
  }

  /** A schema-location value with each of `values` merged into it in turn. */
  function MergeValues(v: string, values: seq<string>): string {
    if values == [] then v
    else SchemaLocation.Merge(MergeValues(v, values[..|values| - 1]), values[|values| - 1])
  }

  /** Merging one more value into an accumulated value. */
  lemma MergeValuesSnoc(values: seq<string>, w: string)
    requires values != []
    ensures var vs := values + [w];
      MergeValues(vs[0], vs[1..]) == SchemaLocation.Merge(MergeValues(values[0], values[1..]), w)
  {
    var vs := values + [w];
    assert vs[1..] == values[1..] + [w];
    assert (values[1..] + [w])[..|values| - 1] == values[1..];
  }

  /** The attributes of `f` and `r` carry the same names, position by position. */
  predicate SameKeys(r: seq<Attribute>, f: seq<Attribute>) {
    |r| == |f| && forall i | 0 <= i < |r| :: AttributeKey(r[i]) == AttributeKey(f[i])
  }

  /** Apart from schema locations, `r` holds the attributes of `f` themselves. */
  predicate SameOrdinary(r: seq<Attribute>, f: seq<Attribute>)
    requires |r| == |f|
  {
    forall i | 0 <= i < |r| && !IsSchemaLocation(f[i]) :: r[i] == f[i]
  }

  /** Every schema location of `acc` holds its value with `values` merged in. */
  predicate SchemaMerged(r: seq<Attribute>, acc: seq<Attribute>, values: seq<string>)
    requires |acc| <= |r|
  {
    forall i | 0 <= i < |acc| && IsSchemaLocation(acc[i]) :: r[i].value == MergeValues(acc[i].value, values)
  }

  /**
   * A schema location appended after `acc` holds the first of `values`
   * with the rest merged in, in order.
   */
  predicate AppendedMerged(r: seq<Attribute>, acc: seq<Attribute>, f: seq<Attribute>, values: seq<string>)
    requires |acc| <= |r| == |f|
  {
    forall i | |acc| <= i < |r| && IsSchemaLocation(f[i]) ::
      values != [] && r[i].value == MergeValues(values[0], values[1..])
  }

  /** A schema-location value seen among `xs` means the schema-location name is present. */
  lemma {:induction false} SchemaValuesHasKey(acc: seq<Attribute>, xs: seq<Attribute>, x: Attribute)
    requires IsSchemaLocation(x)
    ensures SchemaValues(xs) != [] ==> KeyedUnion.HasKey(acc + xs, AttributeKey, AttributeKey(x))
    decreases |xs|
  {
    if xs != [] {
      var init := xs[..|xs| - 1];
      var last := xs[|xs| - 1];
      if IsSchemaLocation(last) {
        assert AttributeKey((acc + xs)[|acc| + |xs| - 1]) == AttributeKey(x);
      } else {
        assert SchemaValues(xs) == SchemaValues(init) + [];
        SchemaValuesHasKey(acc, init, x);
        if SchemaValues(xs) != [] {
          var k :| 0 <= k < |acc + init| && AttributeKey((acc + init)[k]) == AttributeKey(x);
          assert (acc + xs)[k] == (acc + init)[k];
        }
      }
    }
  }

  lemma SameKeysHasKey(r: seq<Attribute>, f: seq<Attribute>, k: (string, string))
    requires SameKeys(r, f)
    ensures KeyedUnion.HasKey(r, AttributeKey, k) <==> KeyedUnion.HasKey(f, AttributeKey, k)
  {
    if KeyedUnion.HasKey(r, AttributeKey, k) {
      var j :| 0 <= j < |r| && AttributeKey(r[j]) == k;
      assert AttributeKey(f[j]) == k;
    }
    if KeyedUnion.HasKey(f, AttributeKey, k) {
      var j :| 0 <= j < |f| && AttributeKey(f[j]) == k;
      assert AttributeKey(r[j]) == k;
    }
  }

  /** Adding a one-attribute list is adding its attribute. */
  lemma MergeAttributesSnoc(acc: seq<Attribute>, xs: seq<Attribute>, x: Attribute)
    ensures MergeAttributes(acc, xs + [x]) == MergeAttribute(MergeAttributes(acc, xs), x)
  {
    MergeAttributesAppend(acc, xs, [x]);
    assert [x][1..] == [];
  }

  /**
   * `r` corresponds to merging the first `n` of `attrs` into `acc`: names
   * follow the first-seen reference, ordinary attributes are those of the
   * reference, each schema location of `acc` has the later
   * schema-location values merged in, and an appended schema location holds
   * the first schema-location value seen with the later ones merged in.
   */
  predicate Corresponds(acc: seq<Attribute>, attrs: seq<Attribute>, n: nat, r: seq<Attribute>)
    requires n <= |attrs|
  {
    var f := acc + KeyedUnion.FirstNew(acc, attrs, AttributeKey, n);
    && SameKeys(r, f) && SameOrdinary(r, f)
    && (KeyedUnion.DistinctKeys(acc, AttributeKey) ==> SchemaMerged(r, acc, SchemaValues(attrs[..n])))
    && (KeyedUnion.DistinctKeys(acc, AttributeKey) ==> AppendedMerged(r, acc, f, SchemaValues(attrs[..n])))
  }

  /**
   * The attributes after merging the first `n` of `attrs`, against the
   * reference: `acc` followed by the first occurrence of every new name,
   * in first-seen order.
   */
  lemma {:induction false} MergeAttributesPrefix(acc: seq<Attribute>, attrs: seq<Attribute>, n: nat)
    requires n <= |attrs|
    ensures Corresponds(acc, attrs, n, MergeAttributes(acc, attrs[..n]))
  {
    if n == 0 {
      assert attrs[..0] == [];
      assert acc + KeyedUnion.FirstNew(acc, attrs, AttributeKey, 0) == acc;
    } else {
      var m: nat := n - 1;
      var r0 := MergeAttributes(acc, attrs[..m]);
      MergeAttributesPrefix(acc, attrs, m);
      MergeAttributesNext(acc, attrs, n, r0);
      PrefixSnoc(acc, attrs, n);
    }
  }

  lemma PrefixSnoc(acc: seq<Attribute>, attrs: seq<Attribute>, n: nat)
    requires 0 < n <= |attrs|
    ensures MergeAttributes(acc, attrs[..n]) == MergeAttribute(MergeAttributes(acc, attrs[..n - 1]), attrs[n - 1])
  {
    SeqFacts.TakeLast(attrs, n);
    MergeAttributesSnoc(acc, attrs[..n - 1], attrs[n - 1]);
  }

  /** One step of `MergeAttributesPrefix`: merging `attrs[n - 1]` into `r` keeps the correspondence. */
  lemma MergeAttributesNext(acc: seq<Attribute>, attrs: seq<Attribute>, n: nat, r: seq<Attribute>)
    requires 0 < n <= |attrs|
    requires KeyedUnion.DistinctKeys(acc, AttributeKey) ==> KeyedUnion.DistinctKeys(r, AttributeKey)
    requires Corresponds(acc, attrs, n - 1, r)
    ensures Corresponds(acc, attrs, n, MergeAttribute(r, attrs[n - 1]))
  {
    var m: nat := n - 1;
    var x := attrs[m];
    var f := acc + KeyedUnion.FirstNew(acc, attrs, AttributeKey, m);
    SchemaValuesStep(attrs, n);
    KeyedUnion.FirstNewKeys(acc, attrs, AttributeKey, m, AttributeKey(x));
    SameKeysHasKey(r, f, AttributeKey(x));
    KeyedUnion.FirstNewStep(acc, attrs, AttributeKey, n);
    SameKeysPrefix(r, acc, KeyedUnion.FirstNew(acc, attrs, AttributeKey, m));
    if KeyedUnion.HasKey(r, AttributeKey, AttributeKey(x)) {
      KnownKeepsShape(r, f, x);
      if KeyedUnion.DistinctKeys(acc, AttributeKey) {
        KnownSchemaMerged(acc, r, SchemaValues(attrs[..m]), x);
        KnownAppendedMerged(acc, r, f, SchemaValues(attrs[..m]), x);
      }
    } else {
      NewKeepsShape(r, f, x);
      if KeyedUnion.DistinctKeys(acc, AttributeKey) {
        NewSchemaMerged(acc, r, SchemaValues(attrs[..m]), x);
        if IsSchemaLocation(x) {
          SchemaValuesHasKey(acc, attrs[..m], x);
        }
        NewAppendedMerged(acc, r, f, SchemaValues(attrs[..m]), x);
      }
    }
  }

  lemma SchemaValuesStep(attrs: seq<Attribute>, n: nat)
    requires 0 < n <= |attrs|
    ensures var x := attrs[n - 1];
      SchemaValues(attrs[..n]) == SchemaValues(attrs[..n - 1]) + (if IsSchemaLocation(x) then [x.value] else [])
  {
    assert attrs[..n][..n - 1] == attrs[..n - 1];
  }

  lemma SameKeysPrefix(r: seq<Attribute>, acc: seq<Attribute>, g: seq<Attribute>)
    requires SameKeys(r, acc + g)
    ensures |acc| <= |r| && forall i | 0 <= i < |acc| :: AttributeKey(r[i]) == AttributeKey(acc[i])
  {
    forall i | 0 <= i < |acc| ensures AttributeKey(r[i]) == AttributeKey(acc[i]) {
      assert (acc + g)[i] == acc[i];
    }
  }

  /** Merging an attribute whose name is present keeps the correspondence with the same reference. */
  lemma KnownKeepsShape(r: seq<Attribute>, f: seq<Attribute>, x: Attribute)
    requires SameKeys(r, f) && SameOrdinary(r, f)
    requires KeyedUnion.HasKey(r, AttributeKey, AttributeKey(x))
    ensures SameKeys(MergeAttribute(r, x), f) && SameOrdinary(MergeAttribute(r, x), f)
  {
    var r' := MergeAttribute(r, x);
    forall i | 0 <= i < |r'| && !IsSchemaLocation(f[i]) ensures r'[i] == f[i] {
      assert AttributeKey(r[i]) == AttributeKey(f[i]);
    }
  }

  /** Merging an attribute with a new name appends it, on both sides. */
  lemma NewKeepsShape(r: seq<Attribute>, f: seq<Attribute>, x: Attribute)
    requires SameKeys(r, f) && SameOrdinary(r, f)
    requires !KeyedUnion.HasKey(r, AttributeKey, AttributeKey(x))
    ensures SameKeys(MergeAttribute(r, x), f + [x]) && SameOrdinary(MergeAttribute(r, x), f + [x])
  {
    assert MergeAttribute(r, x) == r + [x];
  }

  /**
   * Merging an attribute whose name is present into a list with distinct
   * names: a schema location is merged into the one schema location.
   */
  lemma KnownSchemaMerged(acc: seq<Attribute>, r: seq<Attribute>, values: seq<string>, x: Attribute)
    requires |acc| <= |r| && forall i | 0 <= i < |acc| :: AttributeKey(r[i]) == AttributeKey(acc[i])
    requires KeyedUnion.DistinctKeys(r, AttributeKey)
    requires SchemaMerged(r, acc, values)
    requires KeyedUnion.HasKey(r, AttributeKey, AttributeKey(x))
    ensures SchemaMerged(MergeAttribute(r, x), acc, values + (if IsSchemaLocation(x) then [x.value] else []))
  {
    var r' := MergeAttribute(r, x);
    if IsSchemaLocation(x) {
      var j := FindAttribute(r, x);
      var vs := values + [x.value];
      assert vs[..|values|] == values && vs[|values|] == x.value;
      forall i | 0 <= i < |acc| && IsSchemaLocation(acc[i])
        ensures r'[i].value == MergeValues(acc[i].value, vs)
      {
        assert AttributeKey(r[i]) == AttributeKey(r[j]);
      }
    } else {
      assert values + [] == values;
    }
  }

  /** Merging an attribute with a new name leaves the schema locations of `acc` alone. */
  lemma NewSchemaMerged(acc: seq<Attribute>, r: seq<Attribute>, values: seq<string>, x: Attribute)
    requires |acc| <= |r| && forall i | 0 <= i < |acc| :: AttributeKey(r[i]) == AttributeKey(acc[i])
    requires SchemaMerged(r, acc, values)
    requires !KeyedUnion.HasKey(r, AttributeKey, AttributeKey(x))
    ensures SchemaMerged(MergeAttribute(r, x), acc, values + (if IsSchemaLocation(x) then [x.value] else []))
  {
    var r' := MergeAttribute(r, x);
    assert r' == r + [x];
    if IsSchemaLocation(x) {
    }
    assert values + [] == values;
  }

  /**
   * Merging an attribute whose name is present into a list with distinct
   * names: a schema location is merged into the appended schema location,
   * if that is where its name sits.
   */
  lemma KnownAppendedMerged(acc: seq<Attribute>, r: seq<Attribute>, f: seq<Attribute>, values: seq<string>, x: Attribute)
    requires |acc| <= |r| && SameKeys(r, f)
    requires KeyedUnion.DistinctKeys(r, AttributeKey)
    requires AppendedMerged(r, acc, f, values)
    requires KeyedUnion.HasKey(r, AttributeKey, AttributeKey(x))
    ensures AppendedMerged(MergeAttribute(r, x), acc, f, values + (if IsSchemaLocation(x) then [x.value] else []))
  {
    var r' := MergeAttribute(r, x);
    if IsSchemaLocation(x) {
      var j := FindAttribute(r, x);
      var vs := values + [x.value];
      forall i | |acc| <= i < |r'| && IsSchemaLocation(f[i])
        ensures vs != [] && r'[i].value == MergeValues(vs[0], vs[1..])
      {
        assert AttributeKey(r[i]) == AttributeKey(f[i]) == AttributeKey(r[j]);
        assert i == j;
        MergeValuesSnoc(values, x.value);
      }
    } else {
      assert values + [] == values;
    }
  }

  /**
   * Merging an attribute with a new name: a schema location is appended
   * with its own value, which is the first schema-location value seen.
   */
  lemma NewAppendedMerged(acc: seq<Attribute>, r: seq<Attribute>, f: seq<Attribute>, values: seq<string>, x: Attribute)
    requires |acc| <= |r| && SameKeys(r, f)
    requires AppendedMerged(r, acc, f, values)
    requires !KeyedUnion.HasKey(r, AttributeKey, AttributeKey(x))
    requires IsSchemaLocation(x) ==> values == []
    ensures AppendedMerged(MergeAttribute(r, x), acc, f + [x], values + (if IsSchemaLocation(x) then [x.value] else []))
  {
    var r' := MergeAttribute(r, x);
    assert r' == r + [x];
    var f' := f + [x];
    var vs := values + (if IsSchemaLocation(x) then [x.value] else []);
    if IsSchemaLocation(x) {
      forall i | |acc| <= i < |r| ensures !IsSchemaLocation(f[i]) {
        assert AttributeKey(r[i]) == AttributeKey(f[i]);
      }
      assert vs == [x.value];
    } else {
      assert vs == values;
    }
    forall i | |acc| <= i < |r'| && IsSchemaLocation(f'[i])
      ensures vs != [] && r'[i].value == MergeValues(vs[0], vs[1..])
    {
      if i < |r| {
        assert f'[i] == f[i] && r'[i] == r[i];
      } else {
        assert f'[i] == x && r'[i] == x;
        assert vs[1..] == [];
      }
    }
  }

  /**
   * The reference definition of attribute merging: the result is `acc`
   * followed by the first occurrence of every name new to it, in
   * first-seen order; every attribute other than a schema location keeps
   * its first value; and when `acc` names each attribute once, a schema
   * location of `acc` holds its value with every later schema-location
   * value merged in, in order, while an appended schema location holds the
   * first schema-location value of `attrs` with the later ones merged in.
   */
  lemma MergeAttributesFirstSeen(acc: seq<Attribute>, attrs: seq<Attribute>)
    ensures var r := MergeAttributes(acc, attrs);
      var f := acc + KeyedUnion.FirstNew(acc, attrs, AttributeKey, |attrs|);
      && |r| == |f|
      && (forall i | 0 <= i < |r| :: AttributeKey(r[i]) == AttributeKey(f[i]))
      && (forall i | 0 <= i < |r| && !IsSchemaLocation(f[i]) :: r[i] == f[i])
      && (KeyedUnion.DistinctKeys(acc, AttributeKey) ==>
            forall i | 0 <= i < |acc| && IsSchemaLocation(acc[i]) ::
              r[i].value == MergeValues(acc[i].value, SchemaValues(attrs)))
      && (KeyedUnion.DistinctKeys(acc, AttributeKey) ==>
            forall i | |acc| <= i < |r| && IsSchemaLocation(f[i]) ::
              var values := SchemaValues(attrs);
              values != [] && r[i].value == MergeValues(values[0], values[1..]))
  {
    MergeAttributesPrefix(acc, attrs, |attrs|);
    assert attrs[..|attrs|] == attrs;
  }

  // ---------------------------------------------------------------- roots

  /** The identity key: namespace declarations are unioned as (prefix, uri) pairs. */
  function NamespaceKey(n: Namespace): Namespace {
    n
  }

  /** Folds one more chunk's root into the reconciled root; the name stays that of the first. */
  function MergeRoots(acc: StartElement, e: StartElement): (r: StartElement)
    ensures r.prefix == acc.prefix && r.localName == acc.localName
    ensures |acc.namespaces| <= |r.namespaces| && r.namespaces[..|acc.namespaces|] == acc.namespaces
    ensures forall n | n in e.namespaces :: n in r.namespaces
    ensures forall n | n in r.namespaces :: n in acc.namespaces || n in e.namespaces
    ensures KeyedUnion.DistinctKeys(acc.namespaces, NamespaceKey) ==>
      KeyedUnion.DistinctKeys(r.namespaces, NamespaceKey)
    ensures r.namespaces ==
      acc.namespaces + KeyedUnion.FirstNew(acc.namespaces, e.namespaces, NamespaceKey, |e.namespaces|)
    ensures r.attributes == MergeAttributes(acc.attributes, e.attributes)
  {
    var ns := KeyedUnion.Union(acc.namespaces, e.namespaces, NamespaceKey);
    KeyedUnion.UnionFirstSeen(acc.namespaces, e.namespaces, NamespaceKey);
    assert forall n | n in e.namespaces :: n in ns by {
      forall n | n in e.namespaces ensures n in ns {
        assert KeyedUnion.HasKey(ns, NamespaceKey, NamespaceKey(n));
      }
    }
    acc.(namespaces := ns, attributes := MergeAttributes(acc.attributes, e.attributes))
  }

  // ---------------------------------------------------------------- operations

  /**
   * Registers a chunk's metadata. Only a single enclosing root is
   * supported, and it must carry the name of the roots seen before. Not
   * allowed once output has started.
   */
  function Init(s: Strategy, meta: ChunkMeta): (r: Result<Strategy, MergeError>)
    ensures s.headerWritten ==> r == Err(IllegalState)
    ensures r.Ok? <==>
      && !s.headerWritten
      && |meta.parents| == 1
      && (s.root.Some? ==> Name(s.root.value) == Name(meta.parents[0]))
    ensures r.Ok? ==>
      && r.value.initialized == s.initialized + [meta]
      && r.value.output == s.output && !r.value.headerWritten
      && r.value.root.Some?
    ensures r.Ok? && s.root.None? ==> r.value.root == Some(meta.parents[0])
    ensures r.Ok? && s.root.Some? ==> r.value.root == Some(MergeRoots(s.root.value, meta.parents[0]))
    ensures Valid(s) && r.Ok? ==> Valid(r.value)
  {
    if s.headerWritten then Err(IllegalState)
    else if |meta.parents| != 1 then Err(IllegalArgument)
    else
      var e := meta.parents[0];
      match s.root
      case None => Ok(s.(root := Some(e), initialized := s.initialized + [meta]))
      case Some(root) =>
        if Name(root) != Name(e) then Err(IllegalArgument)
        else Ok(s.(root := Some(MergeRoots(root, e)), initialized := s.initialized + [meta]))
  }

  function Clamp(x: int, lo: int, hi: int): (r: int)
    requires lo <= hi
    ensures lo <= r <= hi
    ensures lo <= x <= hi ==> r == x
  {
    if x < lo then lo else if x > hi then hi else x
  }

  /**
   * The inner content of a chunk: its characters at positions in
   * `[start, end)`, as a streaming copy that skips everything outside
   * the range would produce.
   */
  function Contents(c: Chunk): (r: string)
    ensures 0 <= c.meta.start <= c.meta.end <= |c.content| ==>
      |r| == c.meta.end - c.meta.start &&
      forall i | 0 <= i < |r| :: r[i] == c.content[c.meta.start + i]
  {
    var from := Clamp(c.meta.start, 0, |c.content|);
    var to := Clamp(c.meta.end, from, |c.content|);
    c.content[from..to]
  }

  /**
   * Writes one chunk: on the first call the header and the reconciled
   * root's open tag come first. Fails with an illegal-state error for a
   * chunk whose metadata was never passed to `init`.
   */
  function Merge(s: Strategy, c: Chunk): (r: Result<Strategy, MergeError>)
    ensures Valid(s) ==> (r.Err? <==> c.meta !in s.initialized)
    ensures r.Err? ==> r.error == IllegalState
    ensures r.Ok? ==>
      && s.root.Some?
      && r.value.root == s.root && r.value.initialized == s.initialized
      && r.value.headerWritten
    ensures r.Ok? && s.headerWritten ==> r.value.output == s.output + Contents(c)
    ensures r.Ok? && !s.headerWritten ==>
      r.value.output == s.output + Header + ToString(s.root.value) + Contents(c)
    ensures Valid(s) && r.Ok? ==> Valid(r.value)
  {
    if c.meta !in s.initialized || s.root.None? then Err(IllegalState)
    else
      var started := if s.headerWritten then s.output else s.output + Header + ToString(s.root.value);
      Ok(s.(headerWritten := true, output := started + Contents(c)))
  }

  /** Closes the reconciled root and yields the finished document. */
  function Finish(s: Strategy): (doc: string)
    ensures s.root.Some? ==> doc == s.output + EndTag(s.root.value)
    ensures s.root.None? ==> doc == s.output
  {
    match s.root
    case None => s.output
    case Some(root) => s.output + EndTag(root)
  }

  // ---------------------------------------------------------------- whole runs

  function InitAll(s: Strategy, metas: seq<ChunkMeta>): (r: Result<Strategy, MergeError>)
    ensures r.Ok? ==>
      && r.value.initialized == s.initialized + metas
      && r.value.output == s.output && r.value.headerWritten == s.headerWritten
    ensures s.headerWritten && metas != [] ==> r == Err(IllegalState)
    ensures Valid(s) && r.Ok? ==> Valid(r.value)
    decreases |metas|
  {
    if metas == [] then
      assert s.initialized + metas == s.initialized;
      Ok(s)
    else
      var next :- Init(s, metas[0]);
      var r := InitAll(next, metas[1..]);
      assert r.Ok? ==> r.value.initialized == s.initialized + metas by {
        assert s.initialized + [metas[0]] + metas[1..] == s.initialized + metas;
      }
      r
  }

  function MergeAll(s: Strategy, chunks: seq<Chunk>): (r: Result<Strategy, MergeError>)
    ensures Valid(s) ==> (r.Ok? <==> forall i | 0 <= i < |chunks| :: chunks[i].meta in s.initialized)
    ensures r.Err? ==> r.error == IllegalState
    ensures r.Ok? ==> r.value.root == s.root && r.value.initialized == s.initialized
    ensures r.Ok? && chunks != [] ==> r.value.headerWritten
    ensures Valid(s) && r.Ok? ==> Valid(r.value)
    decreases |chunks|
  {
    if chunks == [] then Ok(s)
    else
      var next :- Merge(s, chunks[0]);
      var r := MergeAll(next, chunks[1..]);
      assert Valid(s) ==> (r.Ok? <==> forall i | 0 <= i < |chunks| :: chunks[i].meta in s.initialized) by {
        if Valid(s) && r.Ok? {
          forall i | 0 <= i < |chunks| ensures chunks[i].meta in s.initialized {
            if i > 0 { assert chunks[i] == chunks[1..][i - 1]; }
          }
        }
      }
      r
  }

  /** The inner contents of `chunks`, in order. */
  function AllContents(chunks: seq<Chunk>): string {
    if chunks == [] then "" else Contents(chunks[0]) + AllContents(chunks[1..])
  }

  /** Every metadata entry has a single enclosing root named `name`. */
  predicate CompatibleWith(metas: seq<ChunkMeta>, name: string) {
    forall i | 0 <= i < |metas| :: |metas[i].parents| == 1 && Name(metas[i].parents[0]) == name
  }

  /**
   * Once output has started, merging initialised chunks appends exactly
   * their inner contents, in call order.
   */
  lemma {:induction false} MergeAllAppends(s: Strategy, chunks: seq<Chunk>)
    requires Valid(s) && s.headerWritten
    requires forall c | c in chunks :: c.meta in s.initialized
    ensures MergeAll(s, chunks).Ok?
    ensures MergeAll(s, chunks).value.output == s.output + AllContents(chunks)
    ensures MergeAll(s, chunks).value.root == s.root
    decreases |chunks|
  {
    if chunks == [] {
      assert s.output + [] == s.output;
    } else {
      assert chunks[0] in chunks;
      var next := Merge(s, chunks[0]).value;
      assert next.output == s.output + Contents(chunks[0]);
      assert forall c | c in chunks[1..] :: c in chunks;
      MergeAllAppends(next, chunks[1..]);
      SeqFacts.Associate(s.output, Contents(chunks[0]), AllContents(chunks[1..]));
    }
  }

  /**
   * The merge output contract: after a run of `init` calls has produced
   * the reconciled root, merging a non-empty list of initialised chunks
   * and finishing yields the header, the root's open tag, the chunks'
   * inner contents in call order and the root's close tag.
   */
  lemma MergedDocument(s: Strategy, chunks: seq<Chunk>)
    requires Valid(s) && s.root.Some? && !s.headerWritten
    requires chunks != []
    requires forall c | c in chunks :: c.meta in s.initialized
    ensures MergeAll(s, chunks).Ok?
    ensures Finish(MergeAll(s, chunks).value) ==
      Header + ToString(s.root.value) + AllContents(chunks) + EndTag(s.root.value)
  {
    var root := s.root.value;
    assert chunks[0] in chunks;
    var first := Merge(s, chunks[0]).value;
    assert MergeAll(s, chunks) == MergeAll(first, chunks[1..]);
    assert forall c | c in chunks[1..] :: c.meta in first.initialized by {
      assert forall c | c in chunks[1..] :: c in chunks;
    }
    var opening := Header + ToString(root);
    var head := Contents(chunks[0]);
    var tail := AllContents(chunks[1..]);
    assert first.output == s.output + Header + ToString(root) + head;
    assert s.output + Header == Header;
    SeqFacts.Associate(Header, ToString(root), head);
    assert first.output == opening + head;
    MergeAllAppends(first, chunks[1..]);
    var last := MergeAll(first, chunks[1..]).value;
    assert last.output == opening + head + tail;
    SeqFacts.Associate(opening, head, tail);
    assert AllContents(chunks) == head + tail;
  }

  /** A chunk whose metadata was not initialised stops the run with an illegal-state error. */
  lemma {:induction false} MergeAllRejectsUninitialized(s: Strategy, chunks: seq<Chunk>, k: nat)
    requires Valid(s)
    requires k < |chunks| && chunks[k].meta !in s.initialized
    ensures MergeAll(s, chunks) == Err(IllegalState)
    decreases k
  {
    var r := Merge(s, chunks[0]);
    if k > 0 && r.Ok? {
      MergeAllRejectsUninitialized(r.value, chunks[1..], k - 1);
    }
  }

  /**
   * The reference definition of the reconciled root: every chunk's root
   * folded, in order, into `root`.
   */
  function Reconcile(root: StartElement, metas: seq<ChunkMeta>): (r: StartElement)
    requires CompatibleWith(metas, Name(root))
    ensures Name(r) == Name(root)
    decreases |metas|
  {
    if metas == [] then root
    else
      var next := MergeRoots(root, metas[0].parents[0]);
      assert CompatibleWith(metas[1..], Name(next)) by {
        forall i | 0 <= i < |metas[1..]| ensures |metas[1..][i].parents| == 1 {
          assert metas[1..][i] == metas[i + 1];
        }
      }
      Reconcile(next, metas[1..])
  }

  /** The namespace declarations of the chunks' roots, concatenated in order. */
  function RootNamespaces(metas: seq<ChunkMeta>): seq<Namespace> {
    if metas == [] then []
    else (if metas[0].parents == [] then [] else metas[0].parents[0].namespaces) + RootNamespaces(metas[1..])
  }

  /** The attributes of the chunks' roots, concatenated in order. */
  function RootAttributes(metas: seq<ChunkMeta>): seq<Attribute> {
    if metas == [] then []
    else (if metas[0].parents == [] then [] else metas[0].parents[0].attributes) + RootAttributes(metas[1..])
  }

  lemma {:induction false} MergeAttributesAppend(acc: seq<Attribute>, xs: seq<Attribute>, ys: seq<Attribute>)
    ensures MergeAttributes(MergeAttributes(acc, xs), ys) == MergeAttributes(acc, xs + ys)
    decreases |xs|
  {
    if xs == [] {
      assert xs + ys == ys;
    } else {
      assert (xs + ys)[0] == xs[0] && (xs + ys)[1..] == xs[1..] + ys;
      MergeAttributesAppend(MergeAttribute(acc, xs[0]), xs[1..], ys);
    }
  }

  /**
   * The reconciled root keeps the first root's name; its namespaces are
   * the first-seen union of all roots' declarations and its attributes
   * the union by name of all roots' attributes.
   */
  lemma {:induction false} ReconcileUnion(root: StartElement, metas: seq<ChunkMeta>)
    requires CompatibleWith(metas, Name(root))
    ensures Reconcile(root, metas).prefix == root.prefix
    ensures Reconcile(root, metas).localName == root.localName
    ensures Reconcile(root, metas).namespaces ==
      KeyedUnion.Union(root.namespaces, RootNamespaces(metas), NamespaceKey)
    ensures Reconcile(root, metas).attributes == MergeAttributes(root.attributes, RootAttributes(metas))
    decreases |metas|
  {
    if metas == [] {
      assert KeyedUnion.Union(root.namespaces, [], NamespaceKey) == root.namespaces;
    } else {
      var e := metas[0].parents[0];
      var next := MergeRoots(root, e);
      assert CompatibleWith(metas[1..], Name(next)) by {
        forall i | 0 <= i < |metas[1..]| ensures |metas[1..][i].parents| == 1 {
          assert metas[1..][i] == metas[i + 1];
        }
      }
      ReconcileUnion(next, metas[1..]);
      KeyedUnion.UnionAppend(root.namespaces, e.namespaces, RootNamespaces(metas[1..]), NamespaceKey);
      MergeAttributesAppend(root.attributes, e.attributes, RootAttributes(metas[1..]));
    }
  }

  /**
   * A run of `init` calls after the root exists succeeds exactly when
   * every chunk's single root carries the root's name, and then folds all
   * of them into the root and records all the metadata.
   */
  lemma {:induction false} InitAllFrom(s: Strategy, metas: seq<ChunkMeta>)
    requires Valid(s) && !s.headerWritten && s.root.Some?
    ensures InitAll(s, metas).Ok? <==> CompatibleWith(metas, Name(s.root.value))
    ensures CompatibleWith(metas, Name(s.root.value)) ==>
      InitAll(s, metas) ==
        Ok(s.(root := Some(Reconcile(s.root.value, metas)), initialized := s.initialized + metas))
    decreases |metas|
  {
    var name := Name(s.root.value);
    if metas == [] {
      assert s.initialized + metas == s.initialized;
    } else {
      var r := Init(s, metas[0]);
      CompatibleStep(metas, name);
      if r.Ok? {
        var next := r.value;
        var e := metas[0].parents[0];
        assert next == s.(root := Some(MergeRoots(s.root.value, e)), initialized := s.initialized + [metas[0]]);
        assert InitAll(s, metas) == InitAll(next, metas[1..]);
        InitAllFrom(next, metas[1..]);
        if CompatibleWith(metas, name) {
          var t := InitAll(next, metas[1..]).value;
          assert t.root == Some(Reconcile(s.root.value, metas)) by {
            assert t.root == Some(Reconcile(MergeRoots(s.root.value, e), metas[1..]));
          }
          assert t.initialized == next.initialized + metas[1..];
          SeqFacts.AppendFirst(s.initialized, metas);
          assert t.headerWritten == s.headerWritten && t.output == s.output;
        }
      }
    }
  }

  lemma CompatibleStep(metas: seq<ChunkMeta>, name: string)
    requires metas != []
    ensures CompatibleWith(metas, name) <==>
      |metas[0].parents| == 1 && Name(metas[0].parents[0]) == name && CompatibleWith(metas[1..], name)
  {
    if |metas[0].parents| == 1 && Name(metas[0].parents[0]) == name && CompatibleWith(metas[1..], name) {
      forall i | 0 <= i < |metas| ensures |metas[i].parents| == 1 && Name(metas[i].parents[0]) == name {
        if i > 0 {
          assert metas[i] == metas[1..][i - 1];
        }
      }
    }
    if CompatibleWith(metas, name) {
      forall i | 0 <= i < |metas[1..]|
        ensures |metas[1..][i].parents| == 1 && Name(metas[1..][i].parents[0]) == name
      {
        assert metas[1..][i] == metas[i + 1];
      }
    }
  }

  /**
   * On a fresh strategy, `init` over a non-empty list succeeds exactly
   * when every chunk has a single root and all roots share a name; the
   * reconciled root is the first chunk's root with all later roots folded
   * into it, and nothing has been written yet.
   */
  lemma InitAllFresh(metas: seq<ChunkMeta>)
    requires metas != []
    ensures InitAll(Fresh, metas).Ok? <==>
      |metas[0].parents| == 1 && CompatibleWith(metas[1..], Name(metas[0].parents[0]))
    ensures |metas[0].parents| == 1 && CompatibleWith(metas[1..], Name(metas[0].parents[0])) ==>
      InitAll(Fresh, metas) == Ok(Strategy(Some(Reconcile(metas[0].parents[0], metas[1..])), metas, false, ""))
  {
    var r := Init(Fresh, metas[0]);
    if r.Ok? {
      assert r.value == Strategy(Some(metas[0].parents[0]), [metas[0]], false, "");
      assert InitAll(Fresh, metas) == InitAll(r.value, metas[1..]);
      InitAllFrom(r.value, metas[1..]);
      assert [metas[0]] + metas[1..] == metas;
    }
  }

  /**
   * The namespaces of the reconciled root: the first root's declarations
   * in their order, then each later declaration not seen before; every
   * declaration of every root appears, nothing else does, and none
   * appears twice unless the first root repeated it.
   */
  lemma ReconciledNamespaces(metas: seq<ChunkMeta>)
    requires metas != [] && |metas[0].parents| == 1
    requires CompatibleWith(metas[1..], Name(metas[0].parents[0]))
    ensures InitAll(Fresh, metas).Ok?
    ensures InitAll(Fresh, metas).value.root.Some?
    ensures var first := metas[0].parents[0].namespaces;
      var ns := InitAll(Fresh, metas).value.root.value.namespaces;
      && |first| <= |ns| && ns[..|first|] == first
      && (forall n | n in RootNamespaces(metas) :: n in ns)
      && (forall n | n in ns :: n in RootNamespaces(metas))
      && (KeyedUnion.DistinctKeys(first, NamespaceKey) ==> KeyedUnion.DistinctKeys(ns, NamespaceKey))
      && ns == first + KeyedUnion.FirstNew(first, RootNamespaces(metas[1..]), NamespaceKey, |RootNamespaces(metas[1..])|)
  {
    InitAllFresh(metas);
    var e := metas[0].parents[0];
    ReconcileUnion(e, metas[1..]);
    var ns := KeyedUnion.Union(e.namespaces, RootNamespaces(metas[1..]), NamespaceKey);
    KeyedUnion.UnionFirstSeen(e.namespaces, RootNamespaces(metas[1..]), NamespaceKey);
    assert RootNamespaces(metas) == e.namespaces + RootNamespaces(metas[1..]);
    forall n | n in RootNamespaces(metas) ensures n in ns {
      if n !in e.namespaces {
        assert n in RootNamespaces(metas[1..]);
        assert KeyedUnion.HasKey(ns, NamespaceKey, NamespaceKey(n));
      }
    }
  }

  /**
   * The attributes of the reconciled root: the first root's attributes in
   * their order, then the first occurrence of each later name; ordinary
   * attributes keep the value first seen, and the schema location, whether
   * the first root's or one first brought in by a later root, accumulates
   * every later schema-location value in order.
   */
  lemma ReconciledAttributes(metas: seq<ChunkMeta>)
    requires metas != [] && |metas[0].parents| == 1
    requires CompatibleWith(metas[1..], Name(metas[0].parents[0]))
    ensures InitAll(Fresh, metas).Ok?
    ensures InitAll(Fresh, metas).value.root.Some?
    ensures var first := metas[0].parents[0].attributes;
      var rest := RootAttributes(metas[1..]);
      var r := InitAll(Fresh, metas).value.root.value.attributes;
      var f := first + KeyedUnion.FirstNew(first, rest, AttributeKey, |rest|);
      && |r| == |f|
      && (forall i | 0 <= i < |r| :: AttributeKey(r[i]) == AttributeKey(f[i]))
      && (forall i | 0 <= i < |r| && !IsSchemaLocation(f[i]) :: r[i] == f[i])
      && (KeyedUnion.DistinctKeys(first, AttributeKey) ==>
            forall i | 0 <= i < |first| && IsSchemaLocation(first[i]) ::
              r[i].value == MergeValues(first[i].value, SchemaValues(rest)))
      && (KeyedUnion.DistinctKeys(first, AttributeKey) ==>
            forall i | |first| <= i < |r| && IsSchemaLocation(f[i]) ::
              var values := SchemaValues(rest);
              values != [] && r[i].value == MergeValues(values[0], values[1..]))
  {
    InitAllFresh(metas);
    ReconcileUnion(metas[0].parents[0], metas[1..]);
    MergeAttributesFirstSeen(metas[0].parents[0].attributes, RootAttributes(metas[1..]));
  }
}
