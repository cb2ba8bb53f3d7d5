/**
 * The filtergraph compiler of src/mlt.rs: walking the playlist entries of a
 * Kdenlive project, reading back the colour filters attached to each entry,
 * and collecting, per media URL, the ffmpeg filter string of its active
 * filters (`get_filter_strings` and `get_url_from_producer`).
 */
module Mlt {
  import opened Wrappers
  import opened Strings
  import opened Xml
  import opened MltProperty
  import opened Ffmpeg

  // ---------------------------------------------------------------------
  // Navigation
  // ---------------------------------------------------------------------

  predicate HasFirstChild(n: Node)
  {
    |Children(n)| > 0
  }

  /** `Node::first_child`, where the caller unwraps it. */
  function FirstChild(n: Node): Node
    requires HasFirstChild(n)
  {
    Children(n)[0]
  }

  /** The nodes of `ns` that are elements named `tag`, in order. */
  function Tagged(ns: seq<Node>, tag: string): (r: seq<Node>)
    ensures |r| <= |ns|
    ensures forall i :: 0 <= i < |r| ==> HasTagName(r[i], tag)
    ensures forall i :: 0 <= i < |ns| && HasTagName(ns[i], tag) ==> ns[i] in r
  {
    if |ns| == 0 then []
    else (if HasTagName(ns[0], tag) then [ns[0]] else []) + Tagged(ns[1..], tag)
  }

  /** The filter keeps order: it distributes over concatenation. */
  lemma {:induction false} TaggedConcat(a: seq<Node>, b: seq<Node>, tag: string)
    ensures Tagged(a + b, tag) == Tagged(a, tag) + Tagged(b, tag)
  {
    if |a| > 0 {
      assert (a + b)[1..] == a[1..] + b;
      TaggedConcat(a[1..], b, tag);
    } else {
      assert a + b == b;
    }
  }

  /** One node is kept exactly when it is an element named `tag`. */
  lemma TaggedOne(n: Node, tag: string)
    ensures Tagged([n], tag) == if HasTagName(n, tag) then [n] else []
  {
    assert [n][1..] == [];
  }

  /** The `entry` children of each playlist in turn. */
  function EntriesOfPlaylists(playlists: seq<Node>): (r: seq<Node>)
    ensures forall i :: 0 <= i < |r| ==> HasTagName(r[i], "entry")
  {
    if |playlists| == 0 then []
    else Tagged(Children(playlists[0]), "entry") + EntriesOfPlaylists(playlists[1..])
  }

  /** The walk over playlists distributes over concatenation, so playlist order is kept. */
  lemma {:induction false} EntriesOfPlaylistsConcat(a: seq<Node>, b: seq<Node>)
    ensures EntriesOfPlaylists(a + b) == EntriesOfPlaylists(a) + EntriesOfPlaylists(b)
  {
    if |a| > 0 {
      assert (a + b)[1..] == a[1..] + b;
      EntriesOfPlaylistsConcat(a[1..], b);
    } else {
      assert a + b == b;
    }
  }

  /** One playlist gives exactly its `entry` children, in order. */
  lemma EntriesOfPlaylistsOne(playlist: Node)
    ensures EntriesOfPlaylists([playlist]) == Tagged(Children(playlist), "entry")
  {
    assert [playlist][1..] == [];
  }

  /** Every entry of every playlist directly under the document element, in document order. */
  function Entries(root: Node): seq<Node>
    requires HasFirstChild(root)
  {
    EntriesOfPlaylists(Tagged(Children(FirstChild(root)), "playlist"))
  }

  // ---------------------------------------------------------------------
  // The filter string of one entry
  // ---------------------------------------------------------------------

  /** `filter_map`: the values `recognise` gives for `nodes`, in order, skipping the nodes it rejects. */
  function FilterMap(nodes: seq<Node>, recognise: Node -> Option<Filter>): (r: seq<Filter>)
    ensures |r| <= |nodes|
  {
    if |nodes| == 0 then []
    else
      (match recognise(nodes[0]) case Some(f) => [f] case None => []) + FilterMap(nodes[1..], recognise)
  }

  /** `f` is what `recognise` gives for one of `nodes`. */
  predicate RecognisedAmong(nodes: seq<Node>, recognise: Node -> Option<Filter>, f: Filter)
  {
    exists j :: 0 <= j < |nodes| && recognise(nodes[j]) == Some(f)
  }

  lemma {:induction false} FilterMapMembers(nodes: seq<Node>, recognise: Node -> Option<Filter>)
    ensures forall i :: 0 <= i < |FilterMap(nodes, recognise)| ==> RecognisedAmong(nodes, recognise, FilterMap(nodes, recognise)[i])
  {
    if |nodes| > 0 {
      FilterMapMembers(nodes[1..], recognise);
      var r := FilterMap(nodes, recognise);
      var rest := FilterMap(nodes[1..], recognise);
      var head := match recognise(nodes[0]) case Some(f) => [f] case None => [];
      assert r == head + rest;
      forall i | 0 <= i < |r| ensures RecognisedAmong(nodes, recognise, r[i]) {
        if i < |head| {
          assert recognise(nodes[0]) == Some(r[i]);
        } else {
          assert r[i] == rest[i - |head|];
          assert RecognisedAmong(nodes[1..], recognise, rest[i - |head|]);
          var j :| 0 <= j < |nodes[1..]| && recognise(nodes[1..][j]) == Some(rest[i - |head|]);
          assert nodes[j + 1] == nodes[1..][j];
        }
      }
    }
  }

  lemma {:induction false} FilterMapConcat(a: seq<Node>, b: seq<Node>, recognise: Node -> Option<Filter>)
    ensures FilterMap(a + b, recognise) == FilterMap(a, recognise) + FilterMap(b, recognise)
  {
    if |a| > 0 {
      assert (a + b)[1..] == a[1..] + b;
      FilterMapConcat(a[1..], b, recognise);
    } else {
      assert a + b == b;
    }
  }

  /** The parser chain of `get_filter_strings`, as a function of the node. */
  function Recogniser(fl: Floats): Node -> Option<Filter>
  {
    n => Recognise(n, fl)
  }

  /** The filters read back from `nodes`, in order; a node no parser accepts is skipped. */
  function RecognisedFilters(nodes: seq<Node>, fl: Floats): (r: seq<Filter>)
    ensures |r| <= |nodes|
    ensures forall i :: 0 <= i < |r| ==> ServiceOf(r[i]).Some?
  {
    FilterMapMembers(nodes, Recogniser(fl));
    FilterMap(nodes, Recogniser(fl))
  }

  /** The filters attached to an entry: its `filter` children, read back. */
  function EntryFilters(entry: Node, fl: Floats): seq<Filter>
  {
    RecognisedFilters(Tagged(Children(entry), "filter"), fl)
  }

  /** The active filters of an entry, rendered and joined by `,`. */
  function EntryFilterString(entry: Node, fl: Floats): string
  {
    ActiveFilterString(EntryFilters(entry, fl), fl)
  }

  lemma FilterMapSkips(a: seq<Node>, n: Node, b: seq<Node>, recognise: Node -> Option<Filter>)
    requires recognise(n).None?
    ensures FilterMap(a + [n] + b, recognise) == FilterMap(a + b, recognise)
  {
    FilterMapConcat(a + [n], b, recognise);
    FilterMapConcat(a, [n], recognise);
    FilterMapConcat(a, b, recognise);
    assert [n][1..] == [];
    assert FilterMap([n], recognise) == [];
  }

  /** A node no parser accepts contributes nothing, wherever it sits. */
  lemma UnrecognisedSkipped(a: seq<Node>, n: Node, b: seq<Node>, fl: Floats)
    requires Recognise(n, fl).None?
    ensures RecognisedFilters(a + [n] + b, fl) == RecognisedFilters(a + b, fl)
  {
    assert Recogniser(fl)(n).None?;
    FilterMapSkips(a, n, b, Recogniser(fl));
  }

  /** Reading back distributes over concatenation, so the filters keep the order of their elements. */
  lemma RecognisedFiltersConcat(a: seq<Node>, b: seq<Node>, fl: Floats)
    ensures RecognisedFilters(a + b, fl) == RecognisedFilters(a, fl) + RecognisedFilters(b, fl)
  {
    FilterMapConcat(a, b, Recogniser(fl));
  }

  /** One element gives the filter it is recognised as, or nothing. */
  lemma RecognisedFiltersOne(n: Node, fl: Floats)
    ensures RecognisedFilters([n], fl) == match Recognise(n, fl) case Some(f) => [f] case None => []
  {
    assert [n][1..] == [];
    assert Recogniser(fl)(n) == Recognise(n, fl);
  }

  /** A recognised element contributes its filter, in its own place. */
  lemma RecognisedKept(a: seq<Node>, n: Node, b: seq<Node>, fl: Floats, f: Filter)
    requires Recognise(n, fl) == Some(f)
    ensures RecognisedFilters(a + [n] + b, fl) == RecognisedFilters(a, fl) + [f] + RecognisedFilters(b, fl)
  {
    RecognisedFiltersConcat(a + [n], b, fl);
    RecognisedFiltersConcat(a, [n], fl);
    RecognisedFiltersOne(n, fl);
  }

  /**
   * An entry's string is empty exactly when none of its recognised filters is
   * active: the four recognised kinds never render as empty text.
   */
  lemma EntryFilterStringEmpty(entry: Node, fl: Floats)
    ensures EntryFilterString(entry, fl) == "" <==> AllInactive(EntryFilters(entry, fl))
  {
    var filters := EntryFilters(entry, fl);
    var parts := RenderActive(filters, fl);
    RenderActiveEmpty(filters, fl);
    RenderActiveMembers(filters, fl);
    if |parts| > 0 {
      assert RenderedByActive(filters, fl, parts[0]);
      var i :| 0 <= i < |filters| && filters[i].isActive && parts[0] == Render(filters[i], fl);
      assert ServiceOf(filters[i]).Some?;
      assert parts[0] != "";
    }
  }

  // ---------------------------------------------------------------------
  // URL of a producer (`get_url_from_producer`)
  // ---------------------------------------------------------------------

  /** A `producer` or `chain` element: the two kinds an entry can refer to. */
  predicate IsSource(n: Node)
  {
    HasTagName(n, "producer") || HasTagName(n, "chain")
  }

  predicate IsSourceWithId(n: Node, id: string)
  {
    IsSource(n) && Attribute(n, "id") == Some(id)
  }

  /**
   * The search for the source called `id` does not panic: every `producer`
   * or `chain` it inspects, up to and including the one it finds, has an `id`.
   */
  predicate IdsPresentUntil(ns: seq<Node>, id: string)
  {
    |ns| == 0
    || ((IsSource(ns[0]) ==> Attribute(ns[0], "id").Some?)
        && (IsSourceWithId(ns[0], id) || IdsPresentUntil(ns[1..], id)))
  }

  /** The position of the first source called `id`. */
  function FindSource(ns: seq<Node>, id: string): (r: Option<nat>)
    requires IdsPresentUntil(ns, id)
    ensures r.Some? ==> r.value < |ns| && IsSourceWithId(ns[r.value], id)
    ensures r.Some? ==> forall j :: 0 <= j < r.value ==> !IsSourceWithId(ns[j], id)
    ensures r.None? ==> forall j :: 0 <= j < |ns| ==> !IsSourceWithId(ns[j], id)
  {
    if |ns| == 0 then None
    else if IsSourceWithId(ns[0], id) then Some(0)
    else match FindSource(ns[1..], id)
      case None => None
      case Some(i) => Some(i + 1)
  }

  /** The position of the first node whose `name` attribute is `name`. */
  function NamedIn(ns: seq<Node>, name: string): (r: Option<nat>)
    ensures r.Some? ==> r.value < |ns| && Attribute(ns[r.value], "name") == Some(name)
    ensures r.Some? ==> forall j :: 0 <= j < r.value ==> Attribute(ns[j], "name") != Some(name)
    ensures r.None? ==> forall j :: 0 <= j < |ns| ==> Attribute(ns[j], "name") != Some(name)
  {
    if |ns| == 0 then None
    else if Attribute(ns[0], "name") == Some(name) then Some(0)
    else match NamedIn(ns[1..], name)
      case None => None
      case Some(i) => Some(i + 1)
  }

  /** The lookup of `id` can run without panicking. */
  predicate UrlResolvable(root: Node, id: string)
  {
    HasFirstChild(root) ==> IdsPresentUntil(Children(FirstChild(root)), id)
  }

  /** The `property` children of a source. */
  function SourceProperties(source: Node): seq<Node>
  {
    Tagged(Children(source), "property")
  }

  /**
   * The URL a source gives: the text of its first `kdenlive:originalurl`
   * property or, when it has none, of its first `resource` property.
   */
  function SourceUrl(source: Node): Option<string>
  {
    var props := SourceProperties(source);
    var chosen := match NamedIn(props, "kdenlive:originalurl")
      case Some(j) => Some(j)
      case None => NamedIn(props, "resource");
    match chosen
    case None => None
    case Some(j) => TextOf(props[j])
  }

  /** `get_url_from_producer`: the URL of the first source called `id` under the document element. */
  function UrlFromProducer(root: Node, id: string): Option<string>
    requires UrlResolvable(root, id)
  {
    if !HasFirstChild(root) then None
    else
      var sources := Children(FirstChild(root));
      match FindSource(sources, id)
      case None => None
      case Some(i) => SourceUrl(sources[i])
  }

  /** The source that is read is the first one called `id`. */
  lemma UrlFromProducerAt(root: Node, id: string, i: nat)
    requires UrlResolvable(root, id) && HasFirstChild(root)
    requires i < |Children(FirstChild(root))| && IsSourceWithId(Children(FirstChild(root))[i], id)
    requires forall j :: 0 <= j < i ==> !IsSourceWithId(Children(FirstChild(root))[j], id)
    ensures UrlFromProducer(root, id) == SourceUrl(Children(FirstChild(root))[i])
  {
    var sources := Children(FirstChild(root));
    var r := FindSource(sources, id);
    assert r.Some?;
    assert r.value == i;
  }

  /**
   * A source's URL is its original URL when it has one, with no fall-back
   * even when that property has no text, and its resource otherwise.
   */
  lemma SourceUrlSpec(source: Node)
    ensures var props := SourceProperties(source);
      && (forall j :: 0 <= j < |props| && Attribute(props[j], "name") == Some("kdenlive:originalurl")
            && (forall j' :: 0 <= j' < j ==> Attribute(props[j'], "name") != Some("kdenlive:originalurl"))
            ==> SourceUrl(source) == TextOf(props[j]))
      && ((forall j :: 0 <= j < |props| ==> Attribute(props[j], "name") != Some("kdenlive:originalurl"))
            ==> (forall j :: 0 <= j < |props| && Attribute(props[j], "name") == Some("resource")
                   && (forall j' :: 0 <= j' < j ==> Attribute(props[j'], "name") != Some("resource"))
                   ==> SourceUrl(source) == TextOf(props[j])))
  {
  }

  /**
   * The URL is read from the first source called `id`: its original URL when
   * it has one, with no fall-back even when that property has no text, and
   * its resource otherwise.
   */
  lemma UrlFromProducerSpec(root: Node, id: string, i: nat)
    requires UrlResolvable(root, id) && HasFirstChild(root)
    requires i < |Children(FirstChild(root))| && IsSourceWithId(Children(FirstChild(root))[i], id)
    requires forall j :: 0 <= j < i ==> !IsSourceWithId(Children(FirstChild(root))[j], id)
    ensures var props := SourceProperties(Children(FirstChild(root))[i]);
      && (forall j :: 0 <= j < |props| && Attribute(props[j], "name") == Some("kdenlive:originalurl")
            && (forall j' :: 0 <= j' < j ==> Attribute(props[j'], "name") != Some("kdenlive:originalurl"))
            ==> UrlFromProducer(root, id) == TextOf(props[j]))
      && ((forall j :: 0 <= j < |props| ==> Attribute(props[j], "name") != Some("kdenlive:originalurl"))
            ==> (forall j :: 0 <= j < |props| && Attribute(props[j], "name") == Some("resource")
                   && (forall j' :: 0 <= j' < j ==> Attribute(props[j'], "name") != Some("resource"))
                   ==> UrlFromProducer(root, id) == TextOf(props[j])))
  {
    UrlFromProducerAt(root, id, i);
    SourceUrlSpec(Children(FirstChild(root))[i]);
  }

  /** A first source called `id` with neither an original URL nor a resource gives no URL. */
  lemma UrlFromProducerNeither(root: Node, id: string, i: nat)
    requires UrlResolvable(root, id) && HasFirstChild(root)
    requires i < |Children(FirstChild(root))| && IsSourceWithId(Children(FirstChild(root))[i], id)
    requires forall j :: 0 <= j < i ==> !IsSourceWithId(Children(FirstChild(root))[j], id)
    requires var props := SourceProperties(Children(FirstChild(root))[i]);
      forall j :: 0 <= j < |props| ==>
        Attribute(props[j], "name") != Some("kdenlive:originalurl") && Attribute(props[j], "name") != Some("resource")
    ensures UrlFromProducer(root, id).None?
  {
    UrlFromProducerAt(root, id, i);
  }

  /** Without a document element, or without a source called `id` under it, there is no URL. */
  lemma UrlFromProducerNone(root: Node, id: string)
    requires UrlResolvable(root, id)
    ensures !HasFirstChild(root) ==> UrlFromProducer(root, id).None?
    ensures HasFirstChild(root) && (forall j :: 0 <= j < |Children(FirstChild(root))| ==> !IsSourceWithId(Children(FirstChild(root))[j], id))
      ==> UrlFromProducer(root, id).None?
  {
  }

  // ---------------------------------------------------------------------
  // The URL-to-filter-string map (`get_filter_strings`)
  // ---------------------------------------------------------------------

  /**
   * The entry can be processed without panicking: it names its producer, and
   * when it has a filter string the producer's URL can be resolved.
   */
  predicate EntryCompiles(root: Node, entry: Node, fl: Floats)
  {
    && Attribute(entry, "producer").Some?
    && (EntryFilterString(entry, fl) != "" ==>
          UrlResolvable(root, Attribute(entry, "producer").value)
          && UrlFromProducer(root, Attribute(entry, "producer").value).Some?)
  }

  predicate AllCompile(root: Node, entries: seq<Node>, fl: Floats)
  {
    forall i :: 0 <= i < |entries| ==> EntryCompiles(root, entries[i], fl)
  }

  /** What one entry does to the map: nothing, or an insertion of its string under its URL. */
  function EntryWrite(root: Node, entry: Node, fl: Floats): (r: Option<(string, string)>)
    requires EntryCompiles(root, entry, fl)
    ensures r.Some? <==> EntryFilterString(entry, fl) != ""
    ensures r.Some? ==> r.value == (UrlFromProducer(root, Attribute(entry, "producer").value).value, EntryFilterString(entry, fl))
  {
    var filterString := EntryFilterString(entry, fl);
    if filterString == "" then None
    else Some((UrlFromProducer(root, Attribute(entry, "producer").value).value, filterString))
  }

  /** The writes of the entries, in order. */
  function EntryWrites(root: Node, entries: seq<Node>, fl: Floats): (r: seq<Option<(string, string)>>)
    requires AllCompile(root, entries, fl)
    ensures |r| == |entries|
    ensures forall i :: 0 <= i < |entries| ==> r[i] == EntryWrite(root, entries[i], fl)
  {
    if |entries| == 0 then [] else [EntryWrite(root, entries[0], fl)] + EntryWrites(root, entries[1..], fl)
  }

  /** A `HashMap` after the given inserts, in order. */
  function Apply(writes: seq<Option<(string, string)>>): map<string, string>
  {
    if |writes| == 0 then map[]
    else
      var m := Apply(writes[..|writes| - 1]);
      match writes[|writes| - 1]
      case None => m
      case Some(w) => m[w.0 := w.1]
  }

  /** Write `j` stores under `key`. */
  predicate WritesKey(writes: seq<Option<(string, string)>>, j: int, key: string)
  {
    0 <= j < |writes| && writes[j].Some? && writes[j].value.0 == key
  }

  /** A key is present exactly when some insert used it. */
  lemma {:induction false} ApplyKeys(writes: seq<Option<(string, string)>>, key: string)
    ensures key in Apply(writes) <==> exists j :: WritesKey(writes, j, key)
  {
    if |writes| > 0 {
      var n := |writes| - 1;
      var init := writes[..n];
      ApplyKeys(init, key);
      assert forall j :: 0 <= j < n ==> init[j] == writes[j];
      assert forall j :: WritesKey(init, j, key) <==> WritesKey(writes, j, key) && j < n;
      if WritesKey(writes, n, key) {
        assert key in Apply(writes);
      } else {
        assert Apply(writes).Keys == Apply(init).Keys + (if writes[n].Some? then {writes[n].value.0} else {});
      }
    }
  }

  /** Last write wins: a key holds the value of the last insert that used it. */
  lemma {:induction false} ApplyLastWins(writes: seq<Option<(string, string)>>, key: string, j: nat)
    requires WritesKey(writes, j, key)
    requires forall k :: j < k < |writes| ==> !WritesKey(writes, k, key)
    ensures key in Apply(writes) && Apply(writes)[key] == writes[j].value.1
  {
    var n := |writes| - 1;
    var init := writes[..n];
    if j < n {
      assert WritesKey(init, j, key);
      forall k | j < k < |init| ensures !WritesKey(init, k, key) {
        assert !WritesKey(writes, k, key);
      }
      ApplyLastWins(init, key, j);
      assert !WritesKey(writes, n, key);
    }
  }

  /** Every stored value is the value of some insert. */
  lemma {:induction false} ApplyValues(writes: seq<Option<(string, string)>>, key: string)
    requires key in Apply(writes)
    ensures exists j :: WritesKey(writes, j, key) && Apply(writes)[key] == writes[j].value.1
  {
    var n := |writes| - 1;
    var init := writes[..n];
    if WritesKey(writes, n, key) {
    } else {
      ApplyValues(init, key);
      var j :| WritesKey(init, j, key) && Apply(init)[key] == init[j].value.1;
      assert WritesKey(writes, j, key);
    }
  }

  /** One more insert. */
  lemma ApplyStep(writes: seq<Option<(string, string)>>, i: nat)
    requires i < |writes|
    ensures Apply(writes[..i + 1]) == match writes[i] case None => Apply(writes[..i]) case Some(w) => Apply(writes[..i])[w.0 := w.1]
  {
    assert writes[..i + 1][..i] == writes[..i];
  }

  /** The map `get_filter_strings` builds from the entries in order. */
  function Compile(root: Node, entries: seq<Node>, fl: Floats): map<string, string>
    requires AllCompile(root, entries, fl)
  {
    Apply(EntryWrites(root, entries, fl))
  }

  /** `get_filter_strings`. */
  method GetFilterStrings(root: Node, fl: Floats) returns (filterStrings: map<string, string>)
    requires HasFirstChild(root) && AllCompile(root, Entries(root), fl)
    ensures filterStrings == Compile(root, Entries(root), fl)
  {
    var entries := Entries(root);
    filterStrings := map[];
    ghost var writes := EntryWrites(root, entries, fl);
    for i := 0 to |entries|
      invariant filterStrings == Apply(writes[..i])
    {
      var entry := entries[i];
      var producer := Attribute(entry, "producer").value;
      var filterString := EntryFilterString(entry, fl);
      ApplyStep(writes, i);
      if filterString != "" {
        filterStrings := filterStrings[UrlFromProducer(root, producer).value := filterString];
      }
    }
    assert writes[..|entries|] == writes;
  }

  /** The entry stores its filter string under `url`. */
  predicate Writes(root: Node, entry: Node, fl: Floats, url: string)
    requires EntryCompiles(root, entry, fl)
  {
    EntryWrite(root, entry, fl).Some? && EntryWrite(root, entry, fl).value.0 == url
  }

  /** No URL is ever mapped to an empty filter string. */
  lemma CompileValuesNonEmpty(root: Node, entries: seq<Node>, fl: Floats, url: string)
    requires AllCompile(root, entries, fl) && url in Compile(root, entries, fl)
    ensures Compile(root, entries, fl)[url] != ""
  {
    var writes := EntryWrites(root, entries, fl);
    ApplyValues(writes, url);
    var j :| WritesKey(writes, j, url) && Apply(writes)[url] == writes[j].value.1;
    assert writes[j] == EntryWrite(root, entries[j], fl);
  }

  /** A URL is a key exactly when some entry writes to it. */
  lemma CompileKeys(root: Node, entries: seq<Node>, fl: Floats, url: string)
    requires AllCompile(root, entries, fl)
    ensures url in Compile(root, entries, fl) <==> exists j :: 0 <= j < |entries| && Writes(root, entries[j], fl, url)
  {
    var writes := EntryWrites(root, entries, fl);
    ApplyKeys(writes, url);
    assert forall j :: 0 <= j < |entries| ==> (WritesKey(writes, j, url) <==> Writes(root, entries[j], fl, url));
  }

  /** Last write wins: the value under a URL is the string of the last entry that writes to it. */
  lemma CompileLastWriteWins(root: Node, entries: seq<Node>, fl: Floats, url: string, j: nat)
    requires AllCompile(root, entries, fl)
    requires j < |entries| && Writes(root, entries[j], fl, url)
    requires forall k :: j < k < |entries| ==> !Writes(root, entries[k], fl, url)
    ensures url in Compile(root, entries, fl) && Compile(root, entries, fl)[url] == EntryFilterString(entries[j], fl)
  {
    var writes := EntryWrites(root, entries, fl);
    assert forall k :: 0 <= k < |entries| ==> (WritesKey(writes, k, url) <==> Writes(root, entries[k], fl, url));
    ApplyLastWins(writes, url, j);
  }
}
