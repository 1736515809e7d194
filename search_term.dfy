/**
 * Resolution of the search term of the archive search: the loosely typed
 * query argument becomes the plain text sent as the feed's `term` parameter.
 */
module SearchTerm {
  import opened Wrappers

  /** The query argument: a mapping that holds a "query" entry, or any other
   *  value, represented by its str() text. A mapping without a "query" entry
   *  is a `Text` holding the mapping's str() text. */
  datatype Query = Mapping(query: string) | Text(text: string)

  /** The default argument `query=None`, whose str() text is "None". */
  const NO_QUERY: Query := Text("None")

  const QUERY_KEY: string := "query="

  predicate IsQuote(c: char) {
    c == '"' || c == '\''
  }

  /** The regular expression query=["']([^"']+)["'] matches s[i..j+1]:
   *  "query=" at i, a quote at i + 6, one or more non-quote characters,
   *  and a quote at j. The captured group is s[i + 7..j]. */
  predicate PatternAt(s: string, i: int, j: int) {
    && 0 <= i && i + 7 < j < |s|
    && s[i..i + 6] == QUERY_KEY
    && IsQuote(s[i + 6])
    && IsQuote(s[j])
    && forall k :: i + 7 <= k < j ==> !IsQuote(s[k])
  }

  /** The index of the first quote character at or after k, if any. */
  function FirstQuote(s: string, k: nat): (r: Option<nat>)
    decreases |s| - k
    ensures r.Some? ==> k <= r.value < |s| && IsQuote(s[r.value])
    ensures r.Some? ==> forall m :: k <= m < r.value ==> !IsQuote(s[m])
    ensures r.None? ==> forall m :: k <= m < |s| ==> !IsQuote(s[m])
  {
    if k >= |s| then None
    else if IsQuote(s[k]) then Some(k)
    else FirstQuote(s, k + 1)
  }

  /** Where a match that starts at i ends (the index of its closing quote). */
  function MatchEnd(s: string, i: nat): (r: Option<nat>)
    ensures r.Some? ==> PatternAt(s, i, r.value)
    ensures r.None? ==> forall j :: !PatternAt(s, i, j)
  {
    if i + 7 < |s| && s[i..i + 6] == QUERY_KEY && IsQuote(s[i + 6]) && !IsQuote(s[i + 7])
    then FirstQuote(s, i + 8)
    else None
  }

  /** The leftmost match starting at or after i, as (start, closing quote);
   *  this is what `re.search` finds. */
  function SearchFrom(s: string, i: nat): (r: Option<(nat, nat)>)
    decreases |s| - i
    ensures r.Some? ==> i <= r.value.0 && PatternAt(s, r.value.0, r.value.1)
    ensures r.Some? ==> forall a, b :: i <= a < r.value.0 ==> !PatternAt(s, a, b)
    ensures r.None? ==> forall a, b :: i <= a ==> !PatternAt(s, a, b)
  {
    if i >= |s| then None
    else match MatchEnd(s, i)
      case Some(j) => Some((i, j))
      case None => SearchFrom(s, i + 1)
  }

  /** The captured group of the leftmost match in s, if s matches at all. */
  function Extract(s: string): (r: Option<string>)
    ensures r.Some? <==> exists a, b :: PatternAt(s, a, b)
    ensures r.Some? ==> |r.value| > 0 && forall k :: 0 <= k < |r.value| ==> !IsQuote(r.value[k])
  {
    match SearchFrom(s, 0)
    case Some((a, b)) => Some(s[a + 7..b])
    case None => None
  }

  /** The term before the "None" rule and the space encoding. */
  function RawTerm(q: Query): (r: string)
    ensures q.Mapping? ==> r == q.query
    ensures q.Text? && (forall a, b :: !PatternAt(q.text, a, b)) ==> r == q.text
    ensures q.Text? && (exists a, b :: PatternAt(q.text, a, b)) ==>
              exists a, b :: PatternAt(q.text, a, b) && r == q.text[a + 7..b]
  {
    match q
    case Mapping(t) => t
    case Text(s) =>
      match Extract(s)
      case Some(g) => g
      case None => s
  }

  /** What replacing one character of the term yields. */
  function EncodeChar(c: char): string {
    if c == ' ' then "%20" else [c]
  }

  /** `term.replace(" ", "%20")`: spaces become %20, nothing else is encoded. */
  function EncodeSpaces(s: string): (r: string)
    ensures ' ' !in r
    ensures |r| == |s| + 2 * multiset(s)[' ']
  {
    if s == [] then []
    else
      assert s == [s[0]] + s[1..];
      EncodeChar(s[0]) + EncodeSpaces(s[1..])
  }

  /** Turns each %20 back into a space, scanning left to right. */
  function DecodeSpaces(t: string): string
    decreases |t|
  {
    if t == [] then []
    else if |t| >= 3 && t[..3] == "%20" then [' '] + DecodeSpaces(t[3..])
    else [t[0]] + DecodeSpaces(t[1..])
  }

  /** The term sent to the feed. */
  function ResolveTerm(q: Query): (t: string)
    ensures ' ' !in t
    ensures RawTerm(q) == "None" ==> t == ""
    ensures RawTerm(q) != "None" ==> |t| == |RawTerm(q)| + 2 * multiset(RawTerm(q))[' ']
  {
    var raw := RawTerm(q);
    EncodeSpaces(if raw == "None" then "" else raw)
  }

  lemma PatternEndUnique(s: string, i: int, j: int, j': int)
    requires PatternAt(s, i, j) && PatternAt(s, i, j')
    ensures j == j'
  {
  }

  /** A text with a match yields the group of its leftmost match. */
  lemma ExtractLeftmost(s: string, i: int, j: int)
    requires PatternAt(s, i, j)
    requires forall a, b :: 0 <= a < i ==> !PatternAt(s, a, b)
    ensures RawTerm(Text(s)) == s[i + 7..j]
    ensures |s[i + 7..j]| > 0 && forall k :: i + 7 <= k < j ==> !IsQuote(s[k])
  {
    var r := SearchFrom(s, 0);
    assert r.Some?;
    var (a, b) := r.value;
    assert a == i;
    PatternEndUnique(s, i, j, b);
  }

  /** For a text with a match, the term sent is the group of its leftmost
   *  match with its spaces encoded, unless that group is "None". */
  lemma TextSuppliesTerm(s: string, i: int, j: int)
    requires PatternAt(s, i, j)
    requires forall a, b :: 0 <= a < i ==> !PatternAt(s, a, b)
    requires s[i + 7..j] != "None"
    ensures ResolveTerm(Text(s)) == EncodeSpaces(s[i + 7..j])
  {
    ExtractLeftmost(s, i, j);
  }

  /** A text with no match is used whole. */
  lemma NoPatternWholeText(s: string)
    requires forall a, b :: !PatternAt(s, a, b)
    ensures RawTerm(Text(s)) == s
  {
  }

  /** A mapping's "query" entry is the term as it stands: no pattern
   *  extraction is applied to it. */
  lemma MappingSuppliesTerm(t: string)
    requires t != "None"
    ensures ResolveTerm(Mapping(t)) == EncodeSpaces(t)
  {
  }

  /** Encoding works piece by piece: one character at a time, in order. */
  lemma {:induction false} EncodeSpacesAppend(a: string, b: string)
    ensures EncodeSpaces(a + b) == EncodeSpaces(a) + EncodeSpaces(b)
  {
    if a == [] {
      assert a + b == b;
    } else {
      assert (a + b)[0] == a[0];
      assert (a + b)[1..] == a[1..] + b;
      EncodeSpacesAppend(a[1..], b);
    }
  }

  lemma EncodeSpacesSingle(c: char)
    ensures EncodeSpaces([c]) == EncodeChar(c)
  {
    assert [c][1..] == [];
  }

  /** A term without spaces is sent unchanged. */
  lemma {:induction false} EncodeSpacesNoSpace(s: string)
    requires ' ' !in s
    ensures EncodeSpaces(s) == s
  {
    if s != [] {
      assert s[0] in s;
      assert forall c :: c in s[1..] ==> c in s;
      EncodeSpacesNoSpace(s[1..]);
    }
  }

  lemma DecodeSpacesEncoded(t: string)
    ensures DecodeSpaces("%20" + t) == [' '] + DecodeSpaces(t)
  {
    var e := "%20" + t;
    assert e[..3] == "%20";
    assert e[3..] == t;
  }

  lemma DecodeSpacesPlain(c: char, t: string)
    requires c != '%'
    ensures DecodeSpaces([c] + t) == [c] + DecodeSpaces(t)
  {
    var e := [c] + t;
    assert e[0] == c;
    assert e[1..] == t;
  }

  /** Encoding loses nothing on a term that has no '%' of its own. */
  lemma {:induction false} DecodeEncodeSpaces(s: string)
    requires forall k :: 0 <= k < |s| ==> s[k] != '%'
    ensures DecodeSpaces(EncodeSpaces(s)) == s
  {
    if s != [] {
      var rest := EncodeSpaces(s[1..]);
      DecodeEncodeSpaces(s[1..]);
      assert EncodeSpaces(s) == EncodeChar(s[0]) + rest;
      if s[0] == ' ' {
        DecodeSpacesEncoded(rest);
      } else {
        DecodeSpacesPlain(s[0], rest);
      }
      assert s == [s[0]] + s[1..];
    }
  }

  /** A term with one space between two space-free words. */
  lemma EncodeOneSpace(a: string, b: string)
    requires ' ' !in a && ' ' !in b
    ensures EncodeSpaces(a + " " + b) == a + "%20" + b
  {
    EncodeSpacesAppend(a + " ", b);
    EncodeSpacesAppend(a, " ");
    EncodeSpacesSingle(' ');
    EncodeSpacesNoSpace(a);
    EncodeSpacesNoSpace(b);
  }

  /** The default `query=None` and a mapping whose entry is "None" both give the empty term. */
  lemma NoneGivesEmptyTerm()
    ensures ResolveTerm(NO_QUERY) == ""
    ensures ResolveTerm(Mapping("None")) == ""
  {
    NoPatternWholeText("None");
  }

  /** {"query": "foo bar"} is sent as foo%20bar. */
  lemma MappingExample()
    ensures ResolveTerm(Mapping("foo" + " " + "bar")) == "foo%20bar"
  {
    EncodeOneSpace("foo", "bar");
    assert "foo" + "%20" + "bar" == "foo%20bar";
    assert |"foo" + " " + "bar"| == 7;
  }

  /** The text query="baz" is sent as baz. */
  lemma TextExample()
    ensures ResolveTerm(Text("query=\"baz\"")) == "baz"
  {
    var s := "query=\"baz\"";
    assert PatternAt(s, 0, 10);
    ExtractLeftmost(s, 0, 10);
    assert s[7..10] == "baz";
    EncodeSpacesNoSpace("baz");
  }
}
