/**
 * The value of an `xsi:schemaLocation` attribute: a whitespace-separated
 * list of alternating namespace uris and schema locations (section 2.6.3 of
 * XML Schema Part 1: Structures). Two such values merge as a mapping keyed
 * by uri, the first occurrence of a uri winning, and are written back as
 * space-separated pairs.
 */
module SchemaLocation {
  import KeyedUnion

  datatype Location = Location(uri: string, location: string)

  /** Pairs are keyed by their namespace uri. */
  function Uri(l: Location): string {
    l.uri
  }

  /** XML white space. */
  predicate IsSpace(c: char) {
    c == ' ' || c == '\t' || c == '\n' || c == '\r'
  }

  /** A non-empty run of non-space characters. */
  predicate IsToken(t: string) {
    t != [] && forall i :: 0 <= i < |t| ==> !IsSpace(t[i])
  }

  /** Length of the token at the start of `s` (zero if `s` starts with white space or is empty). */
  function TokenLength(s: string): (n: nat)
    ensures n <= |s|
    ensures forall i :: 0 <= i < n ==> !IsSpace(s[i])
    ensures n < |s| ==> IsSpace(s[n])
  {
    if s == [] || IsSpace(s[0]) then 0 else 1 + TokenLength(s[1..])
  }

  /** The white-space separated tokens of `s`, in order. */
  function Tokens(s: string): (r: seq<string>)
    ensures forall i :: 0 <= i < |r| ==> IsToken(r[i])
    decreases |s|
  {
    if s == [] then []
    else if IsSpace(s[0]) then Tokens(s[1..])
    else
      var n := TokenLength(s);
      [s[..n]] + Tokens(s[n..])
  }

  /** Groups tokens into (uri, location) pairs; a trailing uri without a location is dropped. */
  function Pairs(tokens: seq<string>): (r: seq<Location>)
    ensures |r| == |tokens| / 2
    ensures forall i :: 0 <= i < |r| ==> r[i] == Location(tokens[2 * i], tokens[2 * i + 1])
  {
    if |tokens| < 2 then []
    else [Location(tokens[0], tokens[1])] + Pairs(tokens[2..])
  }

  function Parse(value: string): (r: seq<Location>)
    ensures WellFormed(r)
  {
    Pairs(Tokens(value))
  }

  function Serialize(ls: seq<Location>): (r: string)
    ensures r == "" <==> ls == []
  {
    if ls == [] then ""
    else if |ls| == 1 then ls[0].uri + (" " + ls[0].location)
    else ls[0].uri + (" " + (ls[0].location + (" " + Serialize(ls[1..]))))
  }

  /** Pairs whose uri and location are single tokens, so that writing them out loses nothing. */
  predicate WellFormed(ls: seq<Location>) {
    forall i :: 0 <= i < |ls| ==> IsToken(ls[i].uri) && IsToken(ls[i].location)
  }

  /** Merges two attribute values: the pairs of `b` whose uri `a` does not mention are appended. */
  function Merge(a: string, b: string): (r: string)
    ensures Parse(r) == KeyedUnion.Union(Parse(a), Parse(b), Uri)
  {
    var u := KeyedUnion.Union(Parse(a), Parse(b), Uri);
    assert WellFormed(u) by {
      forall i | 0 <= i < |u| ensures IsToken(u[i].uri) && IsToken(u[i].location) {
        assert u[i] in u;
      }
    }
    ParseSerialize(u);
    Serialize(u)
  }

  lemma {:induction false} TokenLengthOfToken(t: string, rest: string)
    requires IsToken(t)
    requires rest == [] || IsSpace(rest[0])
    ensures TokenLength(t + rest) == |t|
    decreases |t|
  {
    var s := t + rest;
    assert s[0] == t[0];
    if |t| == 1 {
      assert s[1..] == rest;
    } else {
      assert s[1..] == t[1..] + rest;
      TokenLengthOfToken(t[1..], rest);
    }
  }

  /** A token followed by white space or the end is read back as that token. */
  lemma TokensOfToken(t: string, rest: string)
    requires IsToken(t)
    requires rest == [] || IsSpace(rest[0])
    ensures Tokens(t + rest) == [t] + Tokens(rest)
  {
    TokenLengthOfToken(t, rest);
    var s := t + rest;
    assert s[..|t|] == t && s[|t|..] == rest;
  }

  /**
   * Leading white space of any kind is skipped. With `Tokens("") == []`
   * and `TokensOfToken` this fixes `Tokens` on every string, so values split
   * by tabs, line breaks or runs of spaces read as their words in order.
   */
  lemma TokensOfSpace(c: char, rest: string)
    requires IsSpace(c)
    ensures Tokens([c] + rest) == Tokens(rest)
  {
    assert ([c] + rest)[1..] == rest;
  }

  /** A run of white space, possibly empty. */
  predicate IsBlank(g: string) {
    forall i :: 0 <= i < |g| ==> IsSpace(g[i])
  }

  /** Words laid out after the given gaps of white space, followed by `trail`. */
  function Layout(words: seq<string>, gaps: seq<string>, trail: string): string
    requires |gaps| == |words|
    decreases |words|
  {
    if words == [] then trail
    else gaps[0] + (words[0] + Layout(words[1..], gaps[1..], trail))
  }

  /** Any run of white space in front of a text is skipped. */
  lemma {:induction false} TokensOfBlank(g: string, rest: string)
    requires IsBlank(g)
    ensures Tokens(g + rest) == Tokens(rest)
    decreases |g|
  {
    if g == [] {
      assert g + rest == rest;
    } else {
      assert g + rest == [g[0]] + (g[1..] + rest);
      TokensOfSpace(g[0], g[1..] + rest);
      TokensOfBlank(g[1..], rest);
    }
  }

  /**
   * Words separated by any non-empty runs of XML white space, with any
   * white space before the first and after the last, tokenise to exactly
   * those words in order.
   */
  lemma {:induction false} TokensOfLayout(words: seq<string>, gaps: seq<string>, trail: string)
    requires |gaps| == |words|
    requires forall i :: 0 <= i < |words| ==> IsToken(words[i]) && IsBlank(gaps[i])
    requires forall i :: 0 < i < |words| ==> gaps[i] != []
    requires IsBlank(trail)
    ensures Tokens(Layout(words, gaps, trail)) == words
    decreases |words|
  {
    if words == [] {
      TokensOfBlank(trail, []);
      assert trail + [] == trail;
    } else {
      var rest := Layout(words[1..], gaps[1..], trail);
      TokensOfLayout(words[1..], gaps[1..], trail);
      if |words| > 1 {
        assert rest[0] == gaps[1][0];
      }
      TokensOfToken(words[0], rest);
      TokensOfBlank(gaps[0], words[0] + rest);
    }
  }

  /** The flat token list a list of pairs stands for. */
  function Flatten(ls: seq<Location>): seq<string> {
    if ls == [] then [] else [ls[0].uri, ls[0].location] + Flatten(ls[1..])
  }

  lemma {:induction false} PairsOfFlatten(ls: seq<Location>)
    ensures Pairs(Flatten(ls)) == ls
  {
    if ls != [] {
      var f := Flatten(ls);
      assert f[0] == ls[0].uri && f[1] == ls[0].location && f[2..] == Flatten(ls[1..]);
      PairsOfFlatten(ls[1..]);
    }
  }

  /** Tokens of `uri + " " + location + more`, where `more` is empty or starts with white space. */
  lemma PairTokens(l: Location, more: string)
    requires IsToken(l.uri) && IsToken(l.location)
    requires more == [] || IsSpace(more[0])
    ensures Tokens(l.uri + (" " + (l.location + more))) == [l.uri, l.location] + Tokens(more)
  {
    TokensOfToken(l.location, more);
    TokensOfSpace(' ', l.location + more);
    TokensOfToken(l.uri, " " + (l.location + more));
  }

  /** Written-out pairs read back as the flat list of their uris and locations. */
  lemma {:induction false} TokensOfSerialize(ls: seq<Location>)
    requires WellFormed(ls)
    ensures Tokens(Serialize(ls)) == Flatten(ls)
  {
    if ls != [] {
      var l := ls[0];
      assert Flatten(ls) == [l.uri, l.location] + Flatten(ls[1..]);
      if |ls| == 1 {
        assert ls[1..] == [];
        PairTokens(l, []);
        assert l.location + [] == l.location;
      } else {
        var tail := Serialize(ls[1..]);
        assert WellFormed(ls[1..]);
        TokensOfSerialize(ls[1..]);
        TokensOfSpace(' ', tail);
        PairTokens(l, " " + tail);
      }
    }
  }

  /** Parsing what was written gives the pairs back. */
  lemma ParseSerialize(ls: seq<Location>)
    requires WellFormed(ls)
    ensures Parse(Serialize(ls)) == ls
  {
    TokensOfSerialize(ls);
    PairsOfFlatten(ls);
  }

  /** The flat list of well-formed pairs is a list of tokens, two per pair. */
  lemma {:induction false} FlattenTokens(ls: seq<Location>)
    requires WellFormed(ls)
    ensures |Flatten(ls)| == 2 * |ls|
    ensures forall i :: 0 <= i < |Flatten(ls)| ==> IsToken(Flatten(ls)[i])
  {
    if ls != [] {
      assert WellFormed(ls[1..]);
      FlattenTokens(ls[1..]);
      var f := Flatten(ls);
      forall i | 2 <= i < |f| ensures IsToken(f[i]) {
        assert f[i] == Flatten(ls[1..])[i - 2];
      }
    }
  }

  /**
   * A value holding well-formed pairs laid out with any XML white space
   * (line breaks, tabs, runs of spaces) parses to those pairs.
   */
  lemma ParseLayout(ls: seq<Location>, gaps: seq<string>, trail: string)
    requires WellFormed(ls)
    requires |gaps| == |Flatten(ls)|
    requires forall i :: 0 <= i < |gaps| ==> IsBlank(gaps[i])
    requires forall i :: 0 < i < |gaps| ==> gaps[i] != []
    requires IsBlank(trail)
    ensures Parse(Layout(Flatten(ls), gaps, trail)) == ls
  {
    FlattenTokens(ls);
    TokensOfLayout(Flatten(ls), gaps, trail);
    PairsOfFlatten(ls);
  }

  /**
   * Merging keeps every pair of the first value, in order, then the pairs
   * of the second value with a uri not seen before; each uri appears once
   * when it did so in the first value.
   */
  lemma MergeLocations(a: string, b: string)
    ensures var merged := Parse(Merge(a, b));
      && |Parse(a)| <= |merged| && merged[..|Parse(a)|] == Parse(a)
      && (forall l | l in merged :: l in Parse(a) || l in Parse(b))
      && (forall l | l in Parse(b) :: KeyedUnion.HasKey(merged, Uri, l.uri))
      && (KeyedUnion.DistinctKeys(Parse(a), Uri) ==>
            KeyedUnion.DistinctKeys(merged, Uri))
      && merged == Parse(a) + KeyedUnion.FirstNew(Parse(a), Parse(b), Uri, |Parse(b)|)
  {
    KeyedUnion.UnionFirstSeen(Parse(a), Parse(b), Uri);
  }

  /** Merging two written lists of pairs writes their union by uri. */
  lemma MergeSerialized(a: seq<Location>, b: seq<Location>)
    requires WellFormed(a) && WellFormed(b)
    ensures Merge(Serialize(a), Serialize(b)) == Serialize(KeyedUnion.Union(a, b, Uri))
  {
    ParseSerialize(a);
    ParseSerialize(b);
  }
}
