/** A canonical encoder for keyed form values, the inverse partner of the
    parser: every name, dictionary subkey and value is percent-encoded, a
    path is written `[]` / `[k]`, pairs are `key=value` joined with `&`.
    Parsing that text gives back the pairs, folded into the map in order. */
module URLEncodedFormRoundTrip {
  import opened Text
  import opened Optional
  import opened PercentEncoding
  import opened URLEncodedForm

  /** The `[`-piece a subkey becomes: `]` or the encoded key followed by `]`. */
  function Piece(k: SubKey): string {
    match k
    case ArrayAppend => "]"
    case DictionaryKey(n) => Encode(n) + "]"
  }

  function Pieces(path: seq<SubKey>): (r: seq<string>)
    ensures |r| == |path| && forall i :: 0 <= i < |path| ==> r[i] == Piece(path[i])
  {
    if path == [] then [] else [Piece(path[0])] + Pieces(path[1..])
  }

  /** The brackets of a path: `[]` for an append, `[k]` for a dictionary key. */
  function EncodePath(path: seq<SubKey>): string {
    if path == [] then [] else "[" + Piece(path[0]) + EncodePath(path[1..])
  }

  function EncodeKey(key: EncodedKey): string {
    Encode(key.name) + EncodePath(key.path)
  }

  /** One `key=value` pair. */
  function EncodePair(entry: (EncodedKey, string)): string {
    EncodeKey(entry.0) + "=" + Encode(entry.1)
  }

  function EncodePairs(entries: seq<(EncodedKey, string)>): (r: seq<string>)
    ensures |r| == |entries| && forall i :: 0 <= i < |entries| ==> r[i] == EncodePair(entries[i])
  {
    if entries == [] then [] else [EncodePair(entries[0])] + EncodePairs(entries[1..])
  }

  /** The whole form: the pairs joined with `&`. */
  function EncodeForm(entries: seq<(EncodedKey, string)>): string {
    Join(EncodePairs(entries), '&')
  }

  /** Keys the text form can carry: a name before any bracket, and no empty
      dictionary subkey (`[]` reads back as an append). */
  ghost predicate Encodable(key: EncodedKey) {
    (key.path != [] ==> key.name != []) &&
    forall i :: 0 <= i < |key.path| && key.path[i].DictionaryKey? ==> key.path[i].key != []
  }

  /** The entries folded into the map in order, as `parse` does. */
  function StoreAll(entries: seq<(EncodedKey, string)>, decoded: map<string, FormData>): map<string, FormData>
    decreases |entries|
  {
    if entries == [] then decoded
    else StoreAll(entries[1..], Store(decoded, entries[0].0, Str(entries[0].1)))
  }

  // ---------------------------------------------------------------------------

  lemma {:induction false} EncodePathAsJoin(x: string, path: seq<SubKey>)
    ensures x + EncodePath(path) == Join([x] + Pieces(path), '[')
    decreases |path|
  {
    if path != [] {
      var p := Piece(path[0]);
      EncodePathAsJoin(p, path[1..]);
      assert [x] + Pieces(path) == [x] + ([p] + Pieces(path[1..]));
      assert ([x] + ([p] + Pieces(path[1..])))[1..] == [p] + Pieces(path[1..]);
    }
  }

  lemma {:induction false} EncodePathEndsInBracket(path: seq<SubKey>)
    requires path != []
    ensures HasSuffix(EncodePath(path), ']')
    decreases |path|
  {
    if |path| > 1 {
      EncodePathEndsInBracket(path[1..]);
    }
  }

  /** No character of the encoded text is one of the form's delimiters besides
      the brackets the path writes. */
  lemma {:induction false} EncodePathOmits(path: seq<SubKey>, c: char)
    requires c == '&' || c == '=' || c == '+'
    ensures c !in EncodePath(path)
    decreases |path|
  {
    if path != [] {
      EncodePathOmits(path[1..], c);
    }
  }

  /** The piece of a subkey reads back as that subkey. */
  lemma SubKeyOfItsPiece(k: SubKey)
    requires k.DictionaryKey? ==> k.key != []
    ensures SubKeyOf(Piece(k)) == Some(k)
  {
    if k.DictionaryKey? {
      var e := Encode(k.key);
      assert e != [] && !IsFormDelimiter(e[0]);
      assert Piece(k)[0] == e[0];
      assert DropLast(Piece(k)) == e;
      DecodeEncode(k.key);
    }
  }

  /** The pieces of a path read back as the path. */
  lemma SubKeysOfPieces(path: seq<SubKey>)
    requires forall i :: 0 <= i < |path| && path[i].DictionaryKey? ==> path[i].key != []
    ensures SubKeysOf(Pieces(path)) == Some(path)
  {
    var pieces := Pieces(path);
    forall i | 0 <= i < |path| ensures SubKeyOf(pieces[i]) == Some(path[i]) {
      SubKeyOfItsPiece(path[i]);
    }
    var r := SubKeysOf(pieces);
    assert forall i :: 0 <= i < |pieces| ==> SubKeyOf(pieces[i]).Some?;
    forall i | 0 <= i < |path| ensures r.value[i] == path[i] {
      assert SubKeyOf(pieces[i]) == Some(r.value[i]);
    }
    assert r.value == path;
  }

  /** Splitting an encoded bracketed key on `[` gives the encoded name, then the pieces. */
  lemma SplitEncodedKey(key: EncodedKey)
    requires Encodable(key) && key.path != []
    ensures Split(EncodeKey(key), '[') == [Encode(key.name)] + Pieces(key.path)
  {
    var name := Encode(key.name);
    var pieces := [name] + Pieces(key.path);
    EncodePathAsJoin(name, key.path);
    forall i | 0 <= i < |pieces| ensures pieces[i] != [] && '[' !in pieces[i] {
      if i > 0 {
        var k := key.path[i - 1];
        assert pieces[i] == Piece(k);
        if k.DictionaryKey? {
          assert Piece(k) == Encode(k.key) + "]";
          assert forall j :: 0 <= j < |Encode(k.key)| ==> Piece(k)[j] == Encode(k.key)[j];
        }
      }
    }
    SplitJoin(pieces, '[');
  }

  /** An encoded key reads back as itself. */
  lemma ParseEncodedKey(key: EncodedKey)
    requires Encodable(key)
    ensures ParseKey(EncodeKey(key)) == Done(key)
  {
    var raw := EncodeKey(key);
    DecodeEncode(key.name);
    if key.path == [] {
      assert raw == Encode(key.name);
      assert !HasSuffix(raw, ']');
    } else {
      EncodePathEndsInBracket(key.path);
      assert HasSuffix(raw, ']');
      SplitEncodedKey(key);
      var slices := Split(raw, '[');
      assert slices[1..] == Pieces(key.path);
      SubKeysOfPieces(key.path);
    }
  }

  /** An encoded pair is an entry with its key and value. */
  lemma ParseEncodedPair(parser: URLEncodedFormParser, entry: (EncodedKey, string))
    requires Encodable(entry.0)
    requires !parser.omitEmptyValues || entry.1 != []
    ensures ParsePair(parser, EncodePair(entry)) == Done(Entry(entry.0, Str(entry.1)))
  {
    var k := EncodeKey(entry.0);
    EncodePathOmits(entry.0.path, '=');
    assert '=' !in k;
    KeyValuePair(parser, k, Encode(entry.1));
    DecodeEncode(entry.1);
    DecodeSucceedsIff(Encode(entry.1));
    ParseEncodedKey(entry.0);
  }

  /** The steps of the entries, each stored as a string. */
  function EntrySteps(entries: seq<(EncodedKey, string)>): (r: seq<Outcome<PairResult>>)
    ensures |r| == |entries| && forall i :: 0 <= i < |entries| ==> r[i] == Done(Entry(entries[i].0, Str(entries[i].1)))
  {
    seq(|entries|, i requires 0 <= i < |entries| => Done(Entry(entries[i].0, Str(entries[i].1))))
  }

  lemma {:induction false} FoldEntrySteps(entries: seq<(EncodedKey, string)>, decoded: map<string, FormData>)
    ensures FoldSteps(EntrySteps(entries), decoded) == Done(StoreAll(entries, decoded))
    decreases |entries|
  {
    if entries != [] {
      assert EntrySteps(entries)[1..] == EntrySteps(entries[1..]);
      FoldEntrySteps(entries[1..], Store(decoded, entries[0].0, Str(entries[0].1)));
    }
  }

  /** The text of an encoded form has no `+`; each pair is non-empty and has no `&`. */
  lemma EncodedFormShape(entries: seq<(EncodedKey, string)>)
    ensures '+' !in EncodeForm(entries)
    ensures SplitPieces(EncodePairs(entries), '&')
  {
    var pairs := EncodePairs(entries);
    forall i | 0 <= i < |pairs| ensures pairs[i] != [] && '&' !in pairs[i] && '+' !in pairs[i] {
      EncodePathOmits(entries[i].0.path, '&');
      EncodePathOmits(entries[i].0.path, '+');
    }
    JoinOmits(pairs, '&', '+');
  }

  lemma {:induction false} JoinOmits(pieces: seq<string>, sep: char, c: char)
    requires c != sep && forall i :: 0 <= i < |pieces| ==> c !in pieces[i]
    ensures c !in Join(pieces, sep)
  {
    if |pieces| > 1 {
      JoinOmits(pieces[1..], sep, c);
    }
  }

  /** Parsing the canonical encoding of a sequence of keyed values gives back
      those values, folded into the map in order. */
  lemma ParseEncodedForm(parser: URLEncodedFormParser, entries: seq<(EncodedKey, string)>)
    requires forall i :: 0 <= i < |entries| ==> Encodable(entries[i].0)
    requires forall i :: 0 <= i < |entries| ==> !parser.omitEmptyValues || entries[i].1 != []
    ensures ParseSpec(parser, EncodeForm(entries)) == Done(StoreAll(entries, map[]))
  {
    EncodedFormShape(entries);
    ReplacePlusWithoutPlus(EncodeForm(entries));
    SplitJoin(EncodePairs(entries), '&');
    forall i | 0 <= i < |entries| ensures ParsePair(parser, EncodePairs(entries)[i]) == EntrySteps(entries)[i] {
      ParseEncodedPair(parser, entries[i]);
    }
    assert PairSteps(parser, EncodePairs(entries)) == EntrySteps(entries);
    FoldEntrySteps(entries, map[]);
  }

  /** The two keyed values of `a[][x]=1&a[][y]=2`. */
  function QuirkEntries(): seq<(EncodedKey, string)> {
    [(EncodedKey("a", [ArrayAppend, DictionaryKey("x")]), "1"),
     (EncodedKey("a", [ArrayAppend, DictionaryKey("y")]), "2")]
  }

  /** `a[][n]` for a one-character unreserved subkey `n`. */
  lemma QuirkKeyText(n: char)
    requires IsUnreserved(n)
    ensures EncodeKey(EncodedKey("a", [ArrayAppend, DictionaryKey([n])])) == "a[][" + [n] + "]"
  {
    var path := [ArrayAppend, DictionaryKey([n])];
    assert path[1..] == [DictionaryKey([n])];
    assert Encode("a") == "a";
    assert Encode([n]) == [n];
    assert EncodePath([DictionaryKey([n])]) == "[" + [n] + "]";
    assert EncodePath(path) == "[]" + ("[" + [n] + "]");
  }

  /** `a[][n]=v` for one-character unreserved `n` and `v`. */
  lemma QuirkPairText(n: char, v: char)
    requires IsUnreserved(n) && IsUnreserved(v)
    ensures EncodePair((EncodedKey("a", [ArrayAppend, DictionaryKey([n])]), [v])) == "a[][" + [n] + "]=" + [v]
  {
    QuirkKeyText(n);
    assert Encode([v]) == [v];
  }

  lemma QuirkEntriesText()
    ensures EncodeForm(QuirkEntries()) == "a[][x]=1&a[][y]=2"
  {
    var entries := QuirkEntries();
    QuirkPairText('x', '1');
    QuirkPairText('y', '2');
    var p1, p2 := "a[][x]=1", "a[][y]=2";
    assert "a[][" + ['x'] + "]=" + ['1'] == p1;
    assert "a[][" + ['y'] + "]=" + ['2'] == p2;
    assert EncodePairs(entries) == [p1, p2];
    assert [p1, p2][1..] == [p2];
    assert Join([p1, p2], '&') == p1 + ['&'] + p2;
  }

  lemma QuirkEntriesStored()
    ensures StoreAll(QuirkEntries(), map[]) ==
      map["a" := Arr([Dict(map["x" := Str("1")]), Dict(map["x" := Str("1"), "y" := Str("2")])])]
  {
    var entries := QuirkEntries();
    assert entries[1..][1..] == [];
    ArrayOfDictionariesQuirk();
  }

  /** `a[][x]=1&a[][y]=2` parses to an array of two dictionaries, the second
      repeating the first's field. */
  lemma ArrayOfDictionariesExample()
    ensures ParseSpec(DefaultParser, "a[][x]=1&a[][y]=2") ==
      Done(map["a" := Arr([Dict(map["x" := Str("1")]), Dict(map["x" := Str("1"), "y" := Str("2")])])])
  {
    QuirkEntriesText();
    ParseEncodedForm(DefaultParser, QuirkEntries());
    QuirkEntriesStored();
  }
}
