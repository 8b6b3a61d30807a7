/** The `application/x-www-form-urlencoded` parser of
    Sources/Vapor/URLEncodedForm/URLEncodedFormParser.swift: `+` becomes a
    space, the input is split on `&`, each pair at its first `=`, keys such as
    `a[b][]` become a field name and a path of subkeys, and each value is
    folded into a map from field name to a `FormData` tree. */
module URLEncodedForm {
  import opened Text
  import opened Optional
  import opened PercentEncoding

  /** `URLEncodedFormData`: `.string`, `.array` and `.dictionary`. */
  datatype FormData =
    | Str(value: string)
    | Arr(elements: seq<FormData>)
    | Dict(entries: map<string, FormData>)

  /** `URLEncodedFormEncodedSubKey`: `.array` (written `[]`) or `.dictionary(k)` (written `[k]`). */
  datatype SubKey = ArrayAppend | DictionaryKey(key: string)

  /** `URLEncodedFormEncodedKey`: the field name and the path below it. */
  datatype EncodedKey = EncodedKey(name: string, path: seq<SubKey>)

  /** `URLEncodedFormError`: an identifier and a human-readable reason. */
  datatype FormError = FormError(identifier: string, reason: string)

  /** How a Swift call ends: a value, a thrown error, or a runtime trap
      (the force-unwraps of `parseKey`). */
  datatype Outcome<T> = Done(value: T) | Thrown(error: FormError) | Trapped {
    predicate Failed() { !Done? }

    /** The same failure, as the outcome of the caller (Swift's `try`). */
    function Propagate<U>(): Outcome<U>
      requires Failed()
    {
      if Thrown? then Thrown(error) else Trapped
    }
  }

  /** `URLEncodedFormParser`'s two options; both default to `false`. */
  datatype URLEncodedFormParser = URLEncodedFormParser(omitEmptyValues: bool, omitFlags: bool)

  const DefaultParser := URLEncodedFormParser(false, false)

  // ---------------------------------------------------------------------------
  // parseKey

  function DropLast(s: string): string {
    if s == [] then [] else s[..|s| - 1]
  }

  /** One `[`-piece after the name: `]...` is an array subkey, anything else
      names a dictionary entry (the piece without its last character, decoded). */
  function SubKeyOf(piece: string): (r: Option<SubKey>)
    // an array piece never traps
    ensures r.None? ==> !HasPrefix(piece, ']')
    // a dictionary key is decoded from the piece without its closing character
    ensures r.Some? && r.value.DictionaryKey? ==> !HasPrefix(piece, ']') && |r.value.key| <= |DropLast(piece)|
  {
    if |piece| > 0 && piece[0] == ']' then Some(ArrayAppend)
    else
      match Decode(DropLast(piece))
      case None => None
      case Some(k) => Some(DictionaryKey(k))
  }

  /** The `map` over the pieces after the name; `None` when a decode would trap. */
  function SubKeysOf(pieces: seq<string>): (r: Option<seq<SubKey>>)
    ensures r.Some? ==> |r.value| == |pieces| && forall i :: 0 <= i < |pieces| ==> SubKeyOf(pieces[i]) == Some(r.value[i])
    ensures r.None? <==> exists i :: 0 <= i < |pieces| && SubKeyOf(pieces[i]).None?
  {
    if pieces == [] then Some([])
    else
      match SubKeyOf(pieces[0])
      case None => None
      case Some(first) =>
        match SubKeysOf(pieces[1..])
        case None => None
        case Some(rest) =>
          assert forall i :: 1 <= i < |pieces| ==> pieces[i] == pieces[1..][i - 1];
          Some([first] + rest)
  }

  const MalformedKey := FormError("malformedKey", "Malformed form-urlencoded key encountered.")

  /** `parseKey(string:)`: a key ending in `]` is split on `[`; the first piece
      is the name and every later piece a subkey, in bracket order. Any other
      key is the name alone. A failed percent-decode is a trap. */
  function ParseKey(raw: string): (r: Outcome<EncodedKey>)
    // the `malformedKey` error is never thrown
    ensures !r.Thrown?
    // only a key ending in `]` gets a path
    ensures r.Done? && r.value.path != [] ==> HasSuffix(raw, ']')
  {
    if HasSuffix(raw, ']') then
      var slices := Split(raw, '[');
      if |slices| == 0 then Thrown(MalformedKey)
      else
        match SubKeysOf(slices[1..])
        case None => Trapped
        case Some(path) =>
          match Decode(slices[0])
          case None => Trapped
          case Some(name) => Done(EncodedKey(name, path))
    else
      match Decode(raw)
      case None => Trapped
      case Some(name) => Done(EncodedKey(name, []))
  }

  /** A key without a closing `]` is its decoded self with an empty path. */
  lemma ParseKeyPlain(raw: string)
    requires !HasSuffix(raw, ']')
    ensures ParseKey(raw).Done? <==> WellEscaped(raw)
    ensures ParseKey(raw).Done? ==> ParseKey(raw).value == EncodedKey(Decode(raw).value, [])
  {
    DecodeSucceedsIff(raw);
  }

  /** A key ending in `]`: the name is the decoded first `[`-piece and the
      path has one subkey per later piece, in bracket order. */
  lemma ParseKeyBracketed(raw: string)
    requires HasSuffix(raw, ']')
    ensures var pieces := Split(raw, '[');
      |pieces| > 0 &&
      (ParseKey(raw).Done? <==> Decode(pieces[0]).Some? && forall i :: 1 <= i < |pieces| ==> SubKeyOf(pieces[i]).Some?) &&
      (ParseKey(raw).Done? ==>
        var key := ParseKey(raw).value;
        Decode(pieces[0]) == Some(key.name) &&
        |key.path| == |pieces| - 1 &&
        forall i :: 0 <= i < |key.path| ==> SubKeyOf(pieces[i + 1]) == Some(key.path[i]))
  {
    var pieces := Split(raw, '[');
    assert forall i :: 1 <= i < |pieces| ==> pieces[i] == pieces[1..][i - 1];
  }

  /** A piece that starts with `]` is an array subkey; any other piece names
      the dictionary entry spelt by the piece minus its last character. */
  lemma SubKeyOfPiece(piece: string)
    ensures HasPrefix(piece, ']') ==> SubKeyOf(piece) == Some(ArrayAppend)
    ensures !HasPrefix(piece, ']') ==>
      (SubKeyOf(piece).Some? <==> WellEscaped(DropLast(piece))) &&
      (SubKeyOf(piece).Some? ==> SubKeyOf(piece) == Some(DictionaryKey(Decode(DropLast(piece)).value)))
  {
    DecodeSucceedsIff(DropLast(piece));
  }

  // ---------------------------------------------------------------------------
  // set(_:to:at:)

  /** The value a multi-segment path descends into: the array's last element
      (else `[]`), or the dictionary's existing entry (else `[:]`). */
  function Seed(base: FormData, first: SubKey): (r: FormData)
    // the existing last element or entry when there is one ...
    ensures Lookup(base, [first]).Some? ==> r == Lookup(base, [first]).value
    // ... else an empty array or an empty dictionary
    ensures Lookup(base, [first]).None? ==> r == (if first == ArrayAppend then Arr([]) else Dict(map[]))
  {
    assert [first][1..] == [];
    match first
    case ArrayAppend =>
      if base.Arr? && |base.elements| > 0 then base.elements[|base.elements| - 1] else Arr([])
    case DictionaryKey(k) =>
      if base.Dict? && k in base.entries then base.entries[k] else Dict(map[])
  }

  /** `set(&base, to: data, at: path)`, the value `base` holds afterwards.
      The Swift code mutates an `inout` enum, a value type, so returning the
      new tree is the same thing. */
  function Set(base: FormData, data: FormData, path: seq<SubKey>): (r: FormData)
    // an empty path replaces the base outright
    ensures path == [] ==> r == data
    // an array subkey always appends exactly one element and keeps the others
    ensures path != [] && path[0] == ArrayAppend ==>
      r.Arr? &&
      (base.Arr? ==> |r.elements| == |base.elements| + 1 && r.elements[..|base.elements|] == base.elements) &&
      (!base.Arr? ==> |r.elements| == 1)
    // a dictionary subkey sets that key and keeps the others
    ensures path != [] && path[0].DictionaryKey? ==>
      var k := path[0].key;
      r.Dict? && k in r.entries &&
      (base.Dict? ==> r.entries.Keys == base.entries.Keys + {k} &&
                      forall j :: j in base.entries && j != k ==> r.entries[j] == base.entries[j]) &&
      (!base.Dict? ==> r.entries.Keys == {k})
    // with one subkey, the new element or entry is the data itself
    ensures |path| == 1 && path[0] == ArrayAppend ==> r.elements[|r.elements| - 1] == data
    ensures |path| == 1 && path[0].DictionaryKey? ==> r.entries[path[0].key] == data
    decreases |path|
  {
    if path == [] then data
    else
      var first := path[0];
      var child := if |path| == 1 then data else Set(Seed(base, first), data, path[1..]);
      match first
      case ArrayAppend =>
        if base.Arr? then Arr(base.elements + [child]) else Arr([child])
      case DictionaryKey(k) =>
        if base.Dict? then Dict(base.entries[k := child]) else Dict(map[k := child])
  }

  /** Reading a tree along a path, where an array subkey means the last element. */
  function Lookup(t: FormData, path: seq<SubKey>): Option<FormData>
    decreases |path|
  {
    if path == [] then Some(t)
    else
      match path[0]
      case ArrayAppend =>
        if t.Arr? && |t.elements| > 0 then Lookup(t.elements[|t.elements| - 1], path[1..]) else None
      case DictionaryKey(k) =>
        if t.Dict? && k in t.entries then Lookup(t.entries[k], path[1..]) else None
  }

  /** What `set` stored is found again along the same path. */
  lemma {:induction false} SetThenLookup(base: FormData, data: FormData, path: seq<SubKey>)
    ensures Lookup(Set(base, data, path), path) == Some(data)
    decreases |path|
  {
    if |path| > 1 {
      SetThenLookup(Seed(base, path[0]), data, path[1..]);
    }
  }

  /** Below the first subkey, `set` continues from the seed: the last array
      element or the existing dictionary entry. */
  lemma SetSeedsChild(base: FormData, data: FormData, path: seq<SubKey>)
    requires |path| >= 2
    ensures path[0] == ArrayAppend ==>
      var r := Set(base, data, path);
      r.elements[|r.elements| - 1] == Set(Seed(base, path[0]), data, path[1..])
    ensures path[0].DictionaryKey? ==>
      Set(base, data, path).entries[path[0].key] == Set(Seed(base, path[0]), data, path[1..])
  {
  }

  /** The array quirk: `a[][k]=v` on an array whose last element is a
      dictionary appends a copy of that dictionary with `k` set, so earlier
      fields are repeated in the new element. */
  lemma AppendCopiesLastElement(xs: seq<FormData>, m: map<string, FormData>, k: string, data: FormData)
    requires |xs| > 0 && xs[|xs| - 1] == Dict(m)
    ensures Set(Arr(xs), data, [ArrayAppend, DictionaryKey(k)]) == Arr(xs + [Dict(m[k := data])])
  {
    assert [ArrayAppend, DictionaryKey(k)][1..] == [DictionaryKey(k)];
  }

  // ---------------------------------------------------------------------------
  // parse(_:)

  /** What one pair contributes: nothing, or a key and its data. */
  datatype PairResult = Skipped | Entry(key: EncodedKey, data: FormData)

  function PercentDecodingError(value: string): FormError {
    FormError("percentDecoding", "Could not percent decode string value: " + value)
  }

  const MalformedData := FormError("malformedData", "Malformed form-urlencoded data encountered")

  /** The body of `parse`'s loop up to the insertion: split at the first `=`,
      honour the options, decode the value, then parse the key. */
  function ParsePair(parser: URLEncodedFormParser, pair: string): (r: Outcome<PairResult>)
    // a pair is skipped only under one of the two options
    ensures r == Done(Skipped) ==> parser.omitEmptyValues || parser.omitFlags
    // every entry carries a string
    ensures r.Done? && r.value.Entry? ==> r.value.data.Str?
    // the only error thrown is `percentDecoding`
    ensures r.Thrown? ==> r.error.identifier == "percentDecoding"
  {
    var token := SplitFirst(pair, '=');
    if |token| == 2 then
      if parser.omitEmptyValues && |token[1]| == 0 then Done(Skipped)
      else
        match Decode(token[1])
        case None => Thrown(PercentDecodingError(token[1]))
        case Some(value) =>
          var key := ParseKey(token[0]);
          if key.Done? then Done(Entry(key.value, Str(value))) else key.Propagate()
    else if |token| == 1 then
      if parser.omitFlags then Done(Skipped)
      else
        var key := ParseKey(token[0]);
        if key.Done? then Done(Entry(key.value, Str("true"))) else key.Propagate()
    else Thrown(MalformedData)
  }

  /** `decoded[key.name] = resolved`: the field is replaced when the path is
      empty, and otherwise `set` into its current tree (or into `[:]`). */
  function Store(decoded: map<string, FormData>, key: EncodedKey, data: FormData): (r: map<string, FormData>)
    ensures r.Keys == decoded.Keys + {key.name}
    // only the entry for `key.name` changes
    ensures forall n :: n in decoded && n != key.name ==> r[n] == decoded[n]
    // last write wins for a key without a path
    ensures key.path == [] ==> r[key.name] == data
    ensures Lookup(r[key.name], key.path) == Some(data)
    // a path is set into the field's current tree, or into `[:]` for a new field
    ensures key.path != [] ==>
      r[key.name] == Set(if key.name in decoded then decoded[key.name] else Dict(map[]), data, key.path)
  {
    var resolved :=
      if key.path != [] then
        Set(if key.name in decoded then decoded[key.name] else Dict(map[]), data, key.path)
      else data;
    SetThenLookup(if key.name in decoded then decoded[key.name] else Dict(map[]), data, key.path);
    decoded[key.name := resolved]
  }

  /** `a[c]=2` after `a[b]=1`: a dictionary field gets the new key and keeps its others. */
  lemma StoreMergesEntry(decoded: map<string, FormData>, name: string, m: map<string, FormData>, k: string, data: FormData)
    requires name in decoded && decoded[name] == Dict(m)
    ensures Store(decoded, EncodedKey(name, [DictionaryKey(k)]), data)[name] == Dict(m[k := data])
  {
  }

  /** The pairs of an input: `+` replaced by a space, then split on `&`. */
  function Pairs(encoded: string): (r: seq<string>)
    // non-empty pieces without `&` that keep all the other text, in order
    ensures SplitPieces(r, '&') && Concat(r) == Without(ReplacePlus(encoded), '&')
  {
    SplitKeepsText(ReplacePlus(encoded), '&');
    Split(ReplacePlus(encoded), '&')
  }

  /** What each pair contributes, in input order. */
  function PairSteps(parser: URLEncodedFormParser, pairs: seq<string>): (r: seq<Outcome<PairResult>>)
    ensures |r| == |pairs| && forall i :: 0 <= i < |pairs| ==> r[i] == ParsePair(parser, pairs[i])
  {
    seq(|pairs|, i requires 0 <= i < |pairs| => ParsePair(parser, pairs[i]))
  }

  /** `parse`'s loop over the remaining pair outcomes from the map built so
      far: a skipped pair changes nothing, an entry is stored, and the first
      failure ends the whole parse. */
  function FoldSteps(steps: seq<Outcome<PairResult>>, decoded: map<string, FormData>): (r: Outcome<map<string, FormData>>)
    // no field is ever removed
    ensures r.Done? ==> decoded.Keys <= r.value.Keys
    decreases |steps|
  {
    if steps == [] then Done(decoded)
    else
      match steps[0]
      case Done(Skipped) => FoldSteps(steps[1..], decoded)
      case Done(Entry(key, data)) => FoldSteps(steps[1..], Store(decoded, key, data))
      case Thrown(e) => Thrown(e)
      case Trapped => Trapped
  }

  /** The outcome of `parse(encoded)`. */
  function ParseSpec(parser: URLEncodedFormParser, encoded: string): (r: Outcome<map<string, FormData>>)
    // `parse` throws nothing but `percentDecoding`
    ensures r.Thrown? ==> r.error.identifier == "percentDecoding"
  {
    FoldThrowsStepError(PairSteps(parser, Pairs(encoded)), map[]);
    FoldSteps(PairSteps(parser, Pairs(encoded)), map[])
  }

  /** One turn of the loop, as the fold sees it. */
  lemma FoldStep(steps: seq<Outcome<PairResult>>, i: nat, decoded: map<string, FormData>)
    requires i < |steps|
    ensures var step := steps[i];
      (step == Done(Skipped) ==> FoldSteps(steps[i..], decoded) == FoldSteps(steps[i + 1..], decoded)) &&
      (step.Done? && step.value.Entry? ==>
        FoldSteps(steps[i..], decoded) == FoldSteps(steps[i + 1..], Store(decoded, step.value.key, step.value.data))) &&
      (step.Failed() ==> FoldSteps(steps[i..], decoded) == step.Propagate())
  {
    assert steps[i..][0] == steps[i] && steps[i..][1..] == steps[i + 1..];
  }

  /** `parse(_:)`: the loop over the pairs, updating `decoded` in place. */
  method Parse(parser: URLEncodedFormParser, encoded: string) returns (r: Outcome<map<string, FormData>>)
    ensures r == ParseSpec(parser, encoded)
  {
    var data := ReplacePlus(encoded);
    var decoded: map<string, FormData> := map[];
    var pairs := Split(data, '&');
    ghost var steps := PairSteps(parser, pairs);
    for i := 0 to |pairs|
      invariant FoldSteps(steps[i..], decoded) == ParseSpec(parser, encoded)
    {
      var pair := pairs[i];
      ghost var before := decoded;
      ghost var step := steps[i];
      FoldStep(steps, i, decoded);
      var value: FormData;
      var key: EncodedKey;
      var token := SplitFirst(pair, '=');
      if |token| == 2 {
        if parser.omitEmptyValues && |token[1]| == 0 {
          assert step == Done(Skipped);
          continue;
        }
        var decodedValue := Decode(token[1]);
        if decodedValue.None? {
          assert step == Thrown(PercentDecodingError(token[1]));
          return Thrown(PercentDecodingError(token[1]));
        }
        var parsed := ParseKey(token[0]);
        if parsed.Failed() {
          assert step == parsed.Propagate();
          return parsed.Propagate();
        }
        key := parsed.value;
        value := Str(decodedValue.value);
        assert step == Done(Entry(key, value));
      } else if |token| == 1 {
        if parser.omitFlags {
          assert step == Done(Skipped);
          continue;
        }
        var parsed := ParseKey(token[0]);
        if parsed.Failed() {
          assert step == parsed.Propagate();
          return parsed.Propagate();
        }
        key := parsed.value;
        value := Str("true");
        assert step == Done(Entry(key, value));
      } else {
        return Thrown(MalformedData);
      }
      var resolved: FormData;
      if key.path != [] {
        var current := if key.name in decoded then decoded[key.name] else Dict(map[]);
        current := Set(current, value, key.path);
        resolved := current;
      } else {
        resolved := value;
      }
      decoded := decoded[key.name := resolved];
      assert decoded == Store(before, key, value);
    }
    return Done(decoded);
  }

  // ---------------------------------------------------------------------------
  // Properties of parse

  /** `key=value` is split at its first `=` (so `foo=a=b` has the value `a=b`);
      an empty value is skipped before anything is decoded when
      `omitEmptyValues` is set; the value is decoded before the key is parsed,
      so a bad value is reported even when the key would trap. */
  lemma KeyValuePair(parser: URLEncodedFormParser, k: string, v: string)
    requires '=' !in k
    ensures var r := ParsePair(parser, k + "=" + v);
      var skip := parser.omitEmptyValues && v == [];
      (skip ==> r == Done(Skipped)) &&
      (!skip && !WellEscaped(v) ==> r == Thrown(FormError("percentDecoding", "Could not percent decode string value: " + v))) &&
      (!skip && Decode(v).Some? && ParseKey(k).Done? ==> r == Done(Entry(ParseKey(k).value, Str(Decode(v).value)))) &&
      (!skip && Decode(v).Some? && !ParseKey(k).Done? ==> r == Trapped)
  {
    SplitFirstAt(k, '=', v);
    DecodeSucceedsIff(v);
  }

  /** A pair without `=` is a flag: skipped under `omitFlags`, otherwise the string `"true"`. */
  lemma FlagPair(parser: URLEncodedFormParser, k: string)
    requires '=' !in k
    ensures var r := ParsePair(parser, k);
      (parser.omitFlags ==> r == Done(Skipped)) &&
      (!parser.omitFlags && ParseKey(k).Done? ==> r == Done(Entry(ParseKey(k).value, Str("true")))) &&
      (!parser.omitFlags && !ParseKey(k).Done? ==> r == Trapped)
  {
  }

  /** The fold succeeds exactly when no step fails. */
  lemma {:induction false} FoldSucceedsIff(steps: seq<Outcome<PairResult>>, decoded: map<string, FormData>)
    ensures FoldSteps(steps, decoded).Done? <==> forall i :: 0 <= i < |steps| ==> !steps[i].Failed()
    decreases |steps|
  {
    if steps != [] {
      assert forall i :: 1 <= i < |steps| ==> steps[i] == steps[1..][i - 1];
      match steps[0]
      case Done(Skipped) => FoldSucceedsIff(steps[1..], decoded);
      case Done(Entry(key, data)) => FoldSucceedsIff(steps[1..], Store(decoded, key, data));
      case Thrown(e) =>
      case Trapped =>
    }
  }

  /** A failed fold fails as its first failing step does. */
  lemma {:induction false} FoldFailsAtFirstFailure(steps: seq<Outcome<PairResult>>, decoded: map<string, FormData>, i: nat)
    requires i < |steps| && steps[i].Failed()
    requires forall j :: 0 <= j < i ==> !steps[j].Failed()
    ensures FoldSteps(steps, decoded) == steps[i].Propagate()
    decreases i
  {
    if i > 0 {
      var rest := steps[1..];
      assert rest[i - 1] == steps[i];
      assert forall j :: 0 <= j < i - 1 ==> rest[j] == steps[j + 1];
      match steps[0]
      case Done(Skipped) => FoldFailsAtFirstFailure(rest, decoded, i - 1);
      case Done(Entry(key, data)) => FoldFailsAtFirstFailure(rest, Store(decoded, key, data), i - 1);
    }
  }

  /** `parse` succeeds exactly when no pair fails: one bad pair anywhere
      discards the whole map. */
  lemma ParseSucceedsIff(parser: URLEncodedFormParser, encoded: string)
    ensures var pairs := Pairs(encoded);
      ParseSpec(parser, encoded).Done? <==> forall i :: 0 <= i < |pairs| ==> !ParsePair(parser, pairs[i]).Failed()
  {
    FoldSucceedsIff(PairSteps(parser, Pairs(encoded)), map[]);
  }

  /** A failed `parse` reports the failure of its first failing pair. */
  lemma ParseFailsAtFirstFailure(parser: URLEncodedFormParser, encoded: string, i: nat)
    requires var pairs := Pairs(encoded);
      i < |pairs| && ParsePair(parser, pairs[i]).Failed() &&
      forall j :: 0 <= j < i ==> !ParsePair(parser, pairs[j]).Failed()
    ensures ParseSpec(parser, encoded) == ParsePair(parser, Pairs(encoded)[i]).Propagate()
  {
    FoldFailsAtFirstFailure(PairSteps(parser, Pairs(encoded)), map[], i);
  }

  /** The only error a pair can throw is `percentDecoding` of its value:
      `malformedData` and `malformedKey` are unreachable. */
  lemma PairThrowsOnlyPercentDecoding(parser: URLEncodedFormParser, pair: string)
    ensures ParsePair(parser, pair).Thrown? ==>
      var token := SplitFirst(pair, '=');
      |token| == 2 && !WellEscaped(token[1]) && ParsePair(parser, pair).error == PercentDecodingError(token[1])
  {
    DecodeSucceedsIff(SplitFirst(pair, '=')[|SplitFirst(pair, '=')| - 1]);
  }

  /** A fold that throws throws the error of one of its steps. */
  lemma {:induction false} FoldThrowsStepError(steps: seq<Outcome<PairResult>>, decoded: map<string, FormData>)
    ensures FoldSteps(steps, decoded).Thrown? ==>
      exists i :: 0 <= i < |steps| && steps[i] == Thrown(FoldSteps(steps, decoded).error)
    decreases |steps|
  {
    if steps != [] {
      match steps[0]
      case Done(Skipped) =>
        FoldThrowsStepError(steps[1..], decoded);
        if FoldSteps(steps, decoded).Thrown? {
          var i :| 0 <= i < |steps[1..]| && steps[1..][i] == Thrown(FoldSteps(steps, decoded).error);
          assert steps[i + 1] == steps[1..][i];
        }
      case Done(Entry(key, data)) =>
        FoldThrowsStepError(steps[1..], Store(decoded, key, data));
        if FoldSteps(steps, decoded).Thrown? {
          var i :| 0 <= i < |steps[1..]| && steps[1..][i] == Thrown(FoldSteps(steps, decoded).error);
          assert steps[i + 1] == steps[1..][i];
        }
      case Thrown(e) =>
        assert steps[0] == Thrown(FoldSteps(steps, decoded).error);
      case Trapped =>
    }
  }

  /** An error thrown by `parse` is the `percentDecoding` error of the badly
      escaped value of one of the input's pairs. */
  lemma ParseThrowsForBadValue(parser: URLEncodedFormParser, encoded: string)
    ensures ParseSpec(parser, encoded).Thrown? ==>
      exists p :: p in Pairs(encoded) &&
        var token := SplitFirst(p, '=');
        |token| == 2 && !WellEscaped(token[1]) && ParseSpec(parser, encoded).error == PercentDecodingError(token[1])
  {
    var pairs := Pairs(encoded);
    var steps := PairSteps(parser, pairs);
    FoldThrowsStepError(steps, map[]);
    if ParseSpec(parser, encoded).Thrown? {
      var i :| 0 <= i < |steps| && steps[i] == Thrown(ParseSpec(parser, encoded).error);
      assert pairs[i] in pairs;
      PairThrowsOnlyPercentDecoding(parser, pairs[i]);
    }
  }

  /** `+` is replaced before splitting: no pair holds a `+`. */
  lemma PairsOfInput(encoded: string)
    ensures forall p :: p in Pairs(encoded) ==> '+' !in p
  {
    SplitPiecesOmit(ReplacePlus(encoded), '&', '+');
  }

  /** A path whose dictionary keys have no `c`. */
  ghost predicate PathOmits(path: seq<SubKey>, c: char) {
    forall i :: 0 <= i < |path| && path[i].DictionaryKey? ==> c !in path[i].key
  }

  /** Without escapes in a key, nothing in its name or subkeys comes from elsewhere. */
  lemma ParseKeyOmits(raw: string, c: char)
    requires c !in raw && '%' !in raw
    ensures ParseKey(raw).Done?
    ensures c !in ParseKey(raw).value.name && PathOmits(ParseKey(raw).value.path, c)
  {
    if HasSuffix(raw, ']') {
      var pieces := Split(raw, '[');
      SplitPiecesOmit(raw, '[', c);
      SplitPiecesOmit(raw, '[', '%');
      forall i | 0 <= i < |pieces|
        ensures SubKeyOf(pieces[i]).Some? && (SubKeyOf(pieces[i]).value.DictionaryKey? ==> c !in SubKeyOf(pieces[i]).value.key)
      {
        assert pieces[i] in pieces;
        var d := DropLast(pieces[i]);
        assert forall x :: x in d ==> x in pieces[i];
        DecodeWithoutEscapes(d);
      }
      assert pieces[0] in pieces;
      DecodeWithoutEscapes(pieces[0]);
    } else {
      DecodeWithoutEscapes(raw);
    }
  }

  /** Every `+` of the input is a space before any splitting: without
      percent-escapes in the input, no key, subkey or value holds a `+`. */
  lemma NoLiteralPlus(parser: URLEncodedFormParser, encoded: string, pair: string)
    requires '%' !in encoded && pair in Pairs(encoded)
    requires ParsePair(parser, pair).Done? && ParsePair(parser, pair).value.Entry?
    ensures var e := ParsePair(parser, pair).value;
      '+' !in e.key.name && PathOmits(e.key.path, '+') && e.data.Str? && '+' !in e.data.value
  {
    PairsOfInput(encoded);
    assert '%' !in ReplacePlus(encoded) by {
      forall i | 0 <= i < |encoded| ensures ReplacePlus(encoded)[i] != '%' { }
    }
    SplitPiecesOmit(ReplacePlus(encoded), '&', '%');
    var token := SplitFirst(pair, '=');
    assert forall x :: x in token[0] ==> x in pair;
    ParseKeyOmits(token[0], '+');
    if |token| == 2 {
      assert forall x :: x in token[1] ==> x in pair;
      DecodeWithoutEscapes(token[1]);
    }
  }

  /** The array quirk of the source: `a[][x]=1&a[][y]=2` gives two elements,
      the second carrying both fields. */
  lemma ArrayOfDictionariesQuirk()
    ensures
      var m1 := Store(map[], EncodedKey("a", [ArrayAppend, DictionaryKey("x")]), Str("1"));
      var m2 := Store(m1, EncodedKey("a", [ArrayAppend, DictionaryKey("y")]), Str("2"));
      m2 == map["a" := Arr([Dict(map["x" := Str("1")]), Dict(map["x" := Str("1"), "y" := Str("2")])])]
  {
    var p1 := [ArrayAppend, DictionaryKey("x")];
    var p2 := [ArrayAppend, DictionaryKey("y")];
    assert p1[1..] == [DictionaryKey("x")] && p2[1..] == [DictionaryKey("y")];
    var t1 := Set(Dict(map[]), Str("1"), p1);
    assert t1 == Arr([Dict(map["x" := Str("1")])]);
    var m1 := Store(map[], EncodedKey("a", p1), Str("1"));
    assert m1 == map["a" := t1];
    AppendCopiesLastElement(t1.elements, map["x" := Str("1")], "y", Str("2"));
    var t2 := Set(t1, Str("2"), p2);
    assert t2 == Arr(t1.elements + [Dict(map["x" := Str("1"), "y" := Str("2")])]);
    assert t1.elements + [Dict(map["x" := Str("1"), "y" := Str("2")])]
        == [Dict(map["x" := Str("1")]), Dict(map["x" := Str("1"), "y" := Str("2")])];
    assert Store(m1, EncodedKey("a", p2), Str("2")) == map["a" := t2];
  }

  /** `[b]` has no name before its bracket: the name is `b]` and the path is empty. */
  lemma KeyWithoutName()
    ensures ParseKey("[b]") == Done(EncodedKey("b]", []))
  {
    assert Split("[b]", '[') == ["b]"] by {
      assert "[b]"[1..] == "b]";
      assert IndexOf("b]", '[') == 2;
      assert "b]"[..2] == "b]" && "b]"[2..] == [];
    }
    DecodeWithoutEscapes("b]");
  }

  /** A text without `&` is a single pair. */
  lemma SinglePair(s: string)
    requires s != [] && '&' !in s
    ensures Split(s, '&') == [s]
  {
    SplitJoin([s], '&');
  }

  /** `+` replacement leaves the `=` of a pair in place. */
  lemma ReplacePlusAroundEquals(k: string, v: string)
    ensures ReplacePlus(k + "=" + v) == ReplacePlus(k) + "=" + ReplacePlus(v)
  {
    ReplacePlusConcat(k + "=", v);
    ReplacePlusConcat(k, "=");
    ReplacePlusWithoutPlus("=");
  }

  /** An input that is one `k=v` pair, `k` and `v` without `&`, `k` without `=`. */
  lemma OnePairInput(k: string, v: string)
    requires '&' !in k && '&' !in v && '=' !in k
    ensures Pairs(k + "=" + v) == [ReplacePlus(k) + "=" + ReplacePlus(v)]
    ensures '=' !in ReplacePlus(k)
  {
    ReplacePlusAroundEquals(k, v);
    var pair := ReplacePlus(k) + "=" + ReplacePlus(v);
    ReplacePlusKeeps(k + "=" + v, '&');
    ReplacePlusKeeps(k, '=');
    SinglePair(pair);
  }

  /** An input that splits into one pair parses as that pair alone. */
  lemma OnePairParse(parser: URLEncodedFormParser, encoded: string, pair: string)
    requires Pairs(encoded) == [pair]
    ensures ParseSpec(parser, encoded) == FoldSteps([ParsePair(parser, pair)], map[])
  {
    assert PairSteps(parser, [pair]) == [ParsePair(parser, pair)];
  }

  /** A single pair without escapes or brackets is one field holding one
      string, with every `+` read as a space (`a+b=c+d` gives `a b` = `c d`). */
  lemma OnePlainPair(parser: URLEncodedFormParser, k: string, v: string)
    requires '&' !in k && '&' !in v && '=' !in k && '%' !in k && '%' !in v
    requires !HasSuffix(k, ']') && (!parser.omitEmptyValues || v != [])
    ensures ParseSpec(parser, k + "=" + v) == Done(map[ReplacePlus(k) := Str(ReplacePlus(v))])
  {
    OnePairInput(k, v);
    var k', v' := ReplacePlus(k), ReplacePlus(v);
    OnePairParse(parser, k + "=" + v, k' + "=" + v');
    ReplacePlusKeeps(k, '%');
    ReplacePlusKeeps(v, '%');
    assert !HasSuffix(k', ']') by { if k != [] { assert k'[|k| - 1] != ']'; } }
    DecodeWithoutEscapes(k');
    DecodeWithoutEscapes(v');
    ParseKeyPlain(k');
    DecodeSucceedsIff(k');
    KeyValuePair(parser, k', v');
    var step := ParsePair(parser, k' + "=" + v');
    assert step == Done(Entry(EncodedKey(k', []), Str(v')));
    OneEntryFold(step, k', Str(v'));
  }

  /** Folding one step that stores a plain field gives a form with that field alone. */
  lemma OneEntryFold(step: Outcome<PairResult>, name: string, data: FormData)
    requires step == Done(Entry(EncodedKey(name, []), data))
    ensures FoldSteps([step], map[]) == Done(map[name := data])
  {
    assert [step][1..] == [];
    var m := Store(map[], EncodedKey(name, []), data);
    assert m.Keys == {name} && m[name] == data;
    assert m == map[name := data];
  }

  /** A single pair whose value holds a malformed escape fails as a whole
      with `percentDecoding` (`a=%`), whatever its key. */
  lemma OneBadValue(parser: URLEncodedFormParser, k: string, v: string)
    requires '&' !in k && '&' !in v && '=' !in k && v != []
    requires !WellEscaped(ReplacePlus(v))
    ensures ParseSpec(parser, k + "=" + v) ==
      Thrown(FormError("percentDecoding", "Could not percent decode string value: " + ReplacePlus(v)))
  {
    OnePairInput(k, v);
    OnePairParse(parser, k + "=" + v, ReplacePlus(k) + "=" + ReplacePlus(v));
    KeyValuePair(parser, ReplacePlus(k), ReplacePlus(v));
  }
}
