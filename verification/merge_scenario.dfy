/**
 * The two documented runs of the namespace-merging strategy: two chunks
 * whose roots declare overlapping namespaces and schema locations merge
 * into one document under a reconciled root, and a chunk that was never
 * initialised is refused.
 */
module MergeScenario {
  import opened Wrappers
  import opened XmlElement
  import KeyedUnion
  import SchemaLocation
  import opened MergeNamespaces
  import SeqFacts

  function XsiUri(): string {
    "http://www.w3.org/2001/XMLSchema-instance"
  }

  function Loc0(): SchemaLocation.Location {
    SchemaLocation.Location("uri0", "location0")
  }
  function Loc1(): SchemaLocation.Location {
    SchemaLocation.Location("uri1", "location1")
  }
  function Loc2(): SchemaLocation.Location {
    SchemaLocation.Location("uri2", "location2")
  }

  /** "uri0 location0 uri1 location1", see `FirstLocationsText`. */
  function FirstLocations(): string {
    SchemaLocation.Serialize([Loc0(), Loc1()])
  }
  /** "uri0 location0 uri2 location2", see `SecondLocationsText`. */
  function SecondLocations(): string {
    SchemaLocation.Serialize([Loc0(), Loc2()])
  }
  /** "uri0 location0 uri1 location1 uri2 location2", see `MergedLocationsText`. */
  function MergedLocations(): string {
    SchemaLocation.Serialize([Loc0(), Loc1(), Loc2()])
  }

  function Root1(): StartElement {
    StartElement("", "root",
      [Namespace("", "uri0"), Namespace("ns1", "uri1"), Namespace("xsi", XsiUri())],
      [Attribute("xsi", "schemaLocation", FirstLocations()), Attribute("ns1", "attr1", "value1")])
  }

  function Root2(): StartElement {
    StartElement("", "root",
      [Namespace("", "uri0"), Namespace("ns2", "uri2"), Namespace("xsi", XsiUri())],
      [Attribute("xsi", "schemaLocation", SecondLocations()), Attribute("ns2", "attr2", "value2")])
  }

  function ExpectedRoot(): StartElement {
    StartElement("", "root",
      [Namespace("", "uri0"), Namespace("ns1", "uri1"), Namespace("xsi", XsiUri()), Namespace("ns2", "uri2")],
      [Attribute("xsi", "schemaLocation", MergedLocations()),
       Attribute("ns1", "attr1", "value1"), Attribute("ns2", "attr2", "value2")])
  }

  function Contents1(): string {
    "<elem><ns1:child1></ns1:child1></elem>"
  }
  function Contents2(): string {
    "<elem><ns2:child2></ns2:child2></elem>"
  }

  /** A chunk as the splitter writes it: header, root open tag, inner content, root close tag. */
  function Wrapped(root: StartElement, contents: string): string {
    Header + ToString(root) + contents + EndTag(root)
  }

  /** The metadata of such a chunk: its one root and the range of its inner content. */
  function WrappedMeta(root: StartElement, contents: string): ChunkMeta {
    ChunkMeta([root], |Header| + |ToString(root)|, |Wrapped(root, contents)| - |Name(root)| - 3)
  }

  function WrappedChunk(root: StartElement, contents: string): Chunk {
    Chunk(Wrapped(root, contents), WrappedMeta(root, contents))
  }

  /** The content range of a wrapped chunk is exactly the content between its root's tags. */
  lemma WrappedContents(root: StartElement, contents: string)
    ensures Contents(WrappedChunk(root, contents)) == contents
  {
    var c := WrappedChunk(root, contents);
    var open := Header + ToString(root);
    assert c.content == open + contents + EndTag(root);
    assert c.meta.start == |open| && c.meta.end == |open| + |contents|;
    assert c.content[|open|..|open| + |contents|] == contents;
  }

  /** One step of a union: the head of the added list is added first. */
  lemma UnionCons<T, K>(acc: seq<T>, x: T, xs: seq<T>, key: T -> K)
    ensures KeyedUnion.Union(acc, [x] + xs, key) == KeyedUnion.Union(KeyedUnion.Add(acc, x, key), xs, key)
  {
    assert ([x] + xs)[1..] == xs;
  }

  lemma SerializeTwo(l0: SchemaLocation.Location, l1: SchemaLocation.Location)
    ensures SchemaLocation.Serialize([l0, l1]) == l0.uri + (" " + (l0.location + (" " + (l1.uri + (" " + l1.location)))))
  {
    assert [l0, l1][1..] == [l1];
  }

  lemma SerializeThree(l0: SchemaLocation.Location, l1: SchemaLocation.Location, l2: SchemaLocation.Location)
    ensures SchemaLocation.Serialize([l0, l1, l2]) ==
      l0.uri + (" " + (l0.location + (" " + SchemaLocation.Serialize([l1, l2]))))
  {
    assert [l0, l1, l2][1..] == [l1, l2];
  }

  /**
   * Two location lists sharing their first pair merge into the first list
   * followed by the second list's other pair.
   */
  lemma UnionSharedFirst(l0: SchemaLocation.Location, l1: SchemaLocation.Location, l2: SchemaLocation.Location)
    requires l2.uri != l0.uri && l2.uri != l1.uri
    ensures KeyedUnion.Union([l0, l1], [l0, l2], SchemaLocation.Uri) == [l0, l1, l2]
  {
    var key := SchemaLocation.Uri;
    assert key([l0, l1][0]) == l0.uri;
    assert KeyedUnion.Add([l0, l1], l0, key) == [l0, l1];
    UnionCons([l0, l1], l0, [l2], key);
    assert [l0, l2] == [l0] + [l2];
    UnionCons([l0, l1], l2, [], key);
    assert [l0, l1] + [l2] == [l0, l1, l2];
  }

  /** The written forms of the pairs are the schema-location values of the roots. */
  lemma PairText(l0: SchemaLocation.Location, l1: SchemaLocation.Location, p0: string, p1: string)
    requires p0 == l0.uri + " " + l0.location && p1 == l1.uri + " " + l1.location
    ensures SchemaLocation.Serialize([l0, l1]) == p0 + " " + p1
  {
    SerializeTwo(l0, l1);
  }

  lemma FirstLocationsText()
    ensures FirstLocations() == "uri0 location0 uri1 location1"
  {
    assert Loc0().uri + " " + Loc0().location == "uri0 location0";
    assert Loc1().uri + " " + Loc1().location == "uri1 location1";
    PairText(Loc0(), Loc1(), "uri0 location0", "uri1 location1");
  }

  lemma SecondLocationsText()
    ensures SecondLocations() == "uri0 location0 uri2 location2"
  {
    assert Loc0().uri + " " + Loc0().location == "uri0 location0";
    assert Loc2().uri + " " + Loc2().location == "uri2 location2";
    PairText(Loc0(), Loc2(), "uri0 location0", "uri2 location2");
  }

  lemma MergedLocationsText()
    ensures MergedLocations() == "uri0 location0 uri1 location1 uri2 location2"
  {
    var tail := "uri1 location1 uri2 location2";
    assert Loc1().uri + " " + Loc1().location == "uri1 location1";
    assert Loc2().uri + " " + Loc2().location == "uri2 location2";
    PairText(Loc1(), Loc2(), "uri1 location1", "uri2 location2");
    TailText();
    SerializeThree(Loc0(), Loc1(), Loc2());
    HeadText(tail);
    JoinedText();
  }

  // TailText, HeadText and JoinedText split the string arithmetic of
  // MergedLocationsText into small steps, which keeps that proof cheap for
  // the solver; they model nothing of their own.
  lemma TailText()
    ensures "uri1 location1" + " " + "uri2 location2" == "uri1 location1 uri2 location2"
  {
  }

  lemma HeadText(tail: string)
    ensures "uri0" + (" " + ("location0" + (" " + tail))) == "uri0 location0 " + tail
  {
    assert "uri0" + (" " + ("location0" + " ")) == "uri0 location0 ";
  }

  lemma JoinedText()
    ensures "uri0 location0 " + "uri1 location1 uri2 location2" == "uri0 location0 uri1 location1 uri2 location2"
  {
  }

  lemma PairsWellFormed()
    ensures SchemaLocation.WellFormed([Loc0(), Loc1()]) && SchemaLocation.WellFormed([Loc0(), Loc2()])
  {
    assert SchemaLocation.IsToken("uri0") && SchemaLocation.IsToken("location0");
    assert SchemaLocation.IsToken("uri1") && SchemaLocation.IsToken("location1");
    assert SchemaLocation.IsToken("uri2") && SchemaLocation.IsToken("location2");
  }

  /** The schema locations of the two roots, merged by uri. */
  lemma MergedSchemaLocation()
    ensures SchemaLocation.Merge(FirstLocations(), SecondLocations()) == MergedLocations()
  {
    PairsWellFormed();
    SchemaLocation.MergeSerialized([Loc0(), Loc1()], [Loc0(), Loc2()]);
    UnionSharedFirst(Loc0(), Loc1(), Loc2());
  }

  /**
   * Two roots declaring a common first and last namespace and one namespace
   * each: the second root's own namespace is appended.
   */
  lemma NamespacesShape(n0: Namespace, n1: Namespace, n2: Namespace, nx: Namespace)
    requires n2 != n0 && n2 != n1 && n2 != nx
    ensures KeyedUnion.Union([n0, n1, nx], [n0, n2, nx], NamespaceKey) == [n0, n1, nx, n2]
  {
    var ns1 := [n0, n1, nx];
    var after := ns1 + [n2];
    assert NamespaceKey(ns1[0]) == n0;
    assert KeyedUnion.Add(ns1, n0, NamespaceKey) == ns1;
    assert KeyedUnion.Add(ns1, n2, NamespaceKey) == after;
    assert NamespaceKey(after[2]) == nx;
    assert KeyedUnion.Add(after, nx, NamespaceKey) == after;
    assert [n0, n2, nx] == [n0] + ([n2] + ([nx] + []));
    UnionCons(ns1, n0, [n2] + ([nx] + []), NamespaceKey);
    UnionCons(ns1, n2, [nx] + [], NamespaceKey);
    UnionCons(after, nx, [], NamespaceKey);
  }

  /**
   * Two roots with a schema location and one attribute each: the schema
   * locations merge in place and the second root's attribute is appended.
   */
  lemma AttributesShape(sl1: Attribute, x1: Attribute, sl2: Attribute, x2: Attribute)
    requires IsSchemaLocation(sl1) && IsSchemaLocation(sl2)
    requires AttributeKey(x1) != AttributeKey(sl1) && AttributeKey(x2) != AttributeKey(sl1)
    requires AttributeKey(x2) != AttributeKey(x1)
    ensures MergeAttributes([sl1, x1], [sl2, x2]) ==
      [sl1.(value := SchemaLocation.Merge(sl1.value, sl2.value)), x1, x2]
  {
    var merged := [sl1.(value := SchemaLocation.Merge(sl1.value, sl2.value)), x1];
    SchemaLocationMergesInPlace(sl1, x1, sl2);
    MergeTwoAttributes([sl1, x1], sl2, x2);
    AppendNewAttribute(merged, x2);
  }

  lemma MergeTwoAttributes(acc: seq<Attribute>, a: Attribute, b: Attribute)
    ensures MergeAttributes(acc, [a, b]) == MergeAttributes(MergeAttribute(acc, a), [b])
  {
    assert [a, b][1..] == [b];
  }

  lemma AppendNewAttribute(acc: seq<Attribute>, x: Attribute)
    requires |acc| == 2 && AttributeKey(acc[0]) != AttributeKey(x) && AttributeKey(acc[1]) != AttributeKey(x)
    ensures MergeAttributes(acc, [x]) == acc + [x]
  {
    assert !KeyedUnion.HasKey(acc, AttributeKey, AttributeKey(x));
    assert [x][1..] == [];
  }

  lemma SchemaLocationMergesInPlace(sl1: Attribute, x1: Attribute, sl2: Attribute)
    requires IsSchemaLocation(sl1) && IsSchemaLocation(sl2)
    requires AttributeKey(x1) != AttributeKey(sl1)
    ensures MergeAttribute([sl1, x1], sl2) == [sl1.(value := SchemaLocation.Merge(sl1.value, sl2.value)), x1]
  {
    var as1 := [sl1, x1];
    assert as1[..1] == [sl1] && [sl1][..0] == [];
    assert FindAttribute(as1[..1], sl2) == 0;
    assert FindAttribute(as1, sl2) == 0;
  }

  /**
   * A schema location that first arrives with a later root is appended and
   * then takes in the schema-location values that follow it.
   */
  lemma AppendedSchemaLocationAccumulates(sl1: Attribute, sl2: Attribute)
    requires IsSchemaLocation(sl1) && IsSchemaLocation(sl2)
    ensures MergeAttributes([], [sl1, sl2]) == [sl1.(value := SchemaLocation.Merge(sl1.value, sl2.value))]
  {
    MergeOneIntoNothing(sl1);
    SchemaLocationIntoSingle(sl1, sl2);
    TwoAsSnoc(sl1, sl2);
  }

  lemma TwoAsSnoc(a: Attribute, b: Attribute)
    ensures MergeAttributes([], [a, b]) == MergeAttribute(MergeAttributes([], [a]), b)
  {
    assert [a] + [b] == [a, b];
    MergeAttributesSnoc([], [a], b);
  }

  lemma MergeOneIntoNothing(a: Attribute)
    ensures MergeAttributes([], [a]) == [a]
  {
    assert MergeAttribute([], a) == [a];
    assert [a][1..] == [];
  }

  lemma SchemaLocationIntoSingle(sl1: Attribute, sl2: Attribute)
    requires IsSchemaLocation(sl1) && IsSchemaLocation(sl2)
    ensures MergeAttribute([sl1], sl2) == [sl1.(value := SchemaLocation.Merge(sl1.value, sl2.value))]
  {
    assert FindAttribute([sl1][..0], sl2) == -1;
    assert FindAttribute([sl1], sl2) == 0;
  }

  /** Folding the second root into the first gives the expected reconciled root. */
  lemma ReconciledRoot()
    ensures MergeRoots(Root1(), Root2()) == ExpectedRoot()
  {
    NamespacesShape(Root1().namespaces[0], Root1().namespaces[1], Root2().namespaces[1], Root1().namespaces[2]);
    AttributesShape(Root1().attributes[0], Root1().attributes[1], Root2().attributes[0], Root2().attributes[1]);
    MergedSchemaLocation();
  }

  /** Initialising two wrapped chunks with equally named roots folds the second root into the first. */
  lemma InitTwo(r1: StartElement, t1: string, r2: StartElement, t2: string)
    requires Name(r2) == Name(r1)
    ensures var metas := [WrappedMeta(r1, t1), WrappedMeta(r2, t2)];
      InitAll(Fresh, metas) == Ok(Strategy(Some(MergeRoots(r1, r2)), metas, false, ""))
  {
    var m2 := WrappedMeta(r2, t2);
    var metas := [WrappedMeta(r1, t1), m2];
    assert metas[1..] == [m2] && [m2][1..] == [];
    assert CompatibleWith(metas[1..], Name(metas[0].parents[0]));
    InitAllFresh(metas);
    assert Reconcile(r1, [m2]) == Reconcile(MergeRoots(r1, r2), []);
  }

  /** Merging two initialised chunks and finishing, for any reconciled root. */
  lemma MergeTwo(s: Strategy, c1: Chunk, c2: Chunk)
    requires Valid(s) && s.root.Some? && !s.headerWritten
    requires c1.meta in s.initialized && c2.meta in s.initialized
    ensures MergeAll(s, [c1, c2]).Ok?
    ensures Finish(MergeAll(s, [c1, c2]).value) ==
      Header + ToString(s.root.value) + Contents(c1) + Contents(c2) + EndTag(s.root.value)
  {
    var chunks := [c1, c2];
    MergedDocument(s, chunks);
    assert chunks[1..] == [c2] && [c2][1..] == [];
    assert AllContents([c2]) == Contents(c2) + AllContents([]);
    assert Contents(c2) + [] == Contents(c2);
    SeqFacts.Associate(Header + ToString(s.root.value), Contents(c1), Contents(c2));
  }

  /**
   * The whole run for any two wrapped chunks with equally named roots:
   * header, the folded root, both inner contents in order, close tag.
   */
  lemma RunTwo(r1: StartElement, t1: string, r2: StartElement, t2: string)
    requires Name(r2) == Name(r1)
    ensures var metas := [WrappedMeta(r1, t1), WrappedMeta(r2, t2)];
      var root := MergeRoots(r1, r2);
      && InitAll(Fresh, metas).Ok?
      && MergeAll(InitAll(Fresh, metas).value, [WrappedChunk(r1, t1), WrappedChunk(r2, t2)]).Ok?
      && Finish(MergeAll(InitAll(Fresh, metas).value, [WrappedChunk(r1, t1), WrappedChunk(r2, t2)]).value)
        == Header + ToString(root) + t1 + t2 + EndTag(root)
  {
    InitTwo(r1, t1, r2, t2);
    var metas := [WrappedMeta(r1, t1), WrappedMeta(r2, t2)];
    var s := Strategy(Some(MergeRoots(r1, r2)), metas, false, "");
    MergeTwo(s, WrappedChunk(r1, t1), WrappedChunk(r2, t2));
    WrappedContents(r1, t1);
    WrappedContents(r2, t2);
  }

  /**
   * Initialising both chunks, merging both and finishing yields the header,
   * the reconciled root, both inner contents in order and the close tag.
   */
  lemma SimpleMerge()
    ensures var metas := [WrappedMeta(Root1(), Contents1()), WrappedMeta(Root2(), Contents2())];
      var chunks := [WrappedChunk(Root1(), Contents1()), WrappedChunk(Root2(), Contents2())];
      && InitAll(Fresh, metas).Ok?
      && MergeAll(InitAll(Fresh, metas).value, chunks).Ok?
      && Finish(MergeAll(InitAll(Fresh, metas).value, chunks).value)
        == Header + ToString(ExpectedRoot()) + Contents1() + Contents2() + EndTag(ExpectedRoot())
  {
    assert Name(Root2()) == Name(Root1());
    RunTwo(Root1(), Contents1(), Root2(), Contents2());
    ReconciledRoot();
  }

  /**
   * With only the first of two chunks initialised, merging the first works
   * but merging the second fails with an illegal-state error, for any two
   * different roots.
   */
  lemma RunUninitialized(r1: StartElement, t1: string, r2: StartElement, t2: string)
    requires r1 != r2
    ensures var s := InitAll(Fresh, [WrappedMeta(r1, t1)]);
      && s.Ok?
      && Merge(s.value, WrappedChunk(r1, t1)).Ok?
      && Merge(Merge(s.value, WrappedChunk(r1, t1)).value, WrappedChunk(r2, t2)) == Err(IllegalState)
      && MergeAll(s.value, [WrappedChunk(r1, t1), WrappedChunk(r2, t2)]) == Err(IllegalState)
  {
    var m1 := WrappedMeta(r1, t1);
    InitAllFresh([m1]);
    assert [m1][1..] == [];
    assert InitAll(Fresh, [m1]) == Ok(Strategy(Some(r1), [m1], false, ""));
    assert WrappedMeta(r2, t2).parents[0] != m1.parents[0];
    MergeAllRejectsUninitialized(Strategy(Some(r1), [m1], false, ""), [WrappedChunk(r1, t1), WrappedChunk(r2, t2)], 1);
  }

  /** The test's second run: the second chunk was never initialised and is refused. */
  lemma MergeUninitialized()
    ensures var s := InitAll(Fresh, [WrappedMeta(Root1(), Contents1())]);
      && s.Ok?
      && Merge(s.value, WrappedChunk(Root1(), Contents1())).Ok?
      && Merge(Merge(s.value, WrappedChunk(Root1(), Contents1())).value, WrappedChunk(Root2(), Contents2())) == Err(IllegalState)
  {
    assert Root1().namespaces[1] != Root2().namespaces[1];
    RunUninitialized(Root1(), Contents1(), Root2(), Contents2());
  }
}
