/**
 * The parsed-font cache (`FONTDUE_FONTS` and `get_or_create_fontdue_font`):
 * a map from a font blob's identity and the index of a face inside that blob
 * to the font parsed from them. It only ever grows; a miss runs the parser
 * once and stores its result, a hit returns the stored font.
 *
 * The parser is an external operation, passed in as a function; it reports
 * failure with None, and the source aborts on failure, so every operation
 * here requires that a parse it would run succeeds.
 */
module SystemFonts {
  import opened Optional
  import opened FontBase

  /** The cache key: blob identity and collection index. */
  type FontKey = (U64, U32)

  /** Parses a blob's bytes as the face with the given collection index. */
  type Parser<F> = (seq<bv8>, U32) -> Option<F>

  /** One call: the blob and the collection index asked for. */
  datatype Request = Request(blob: Blob, index: U32)

  function KeyOf(blob: Blob, index: U32): FontKey
  {
    (blob.id, index)
  }

  /** Every entry of small is in large with the same font. */
  ghost predicate Extends<F>(small: map<FontKey, F>, large: map<FontKey, F>)
  {
    forall k :: k in small ==> k in large && large[k] == small[k]
  }

  /** The call can complete: its key is cached, or parsing its blob succeeds. */
  ghost predicate CanServe<F>(fonts: map<FontKey, F>, blob: Blob, index: U32, parse: Parser<F>)
  {
    KeyOf(blob, index) in fonts || parse(blob.data, index).Some?
  }

  /**
   * `get_or_create_fontdue_font` on the map as a value: the new map and the
   * font returned. A hit returns the stored font and leaves the map as it
   * was; a miss returns what the parser made of this blob's bytes with this
   * index and adds it under the key. No entry is ever removed or changed.
   */
  function GetOrCreate<F>(fonts: map<FontKey, F>, blob: Blob, index: U32, parse: Parser<F>)
    : (r: (map<FontKey, F>, F))
    requires CanServe(fonts, blob, index, parse)
    ensures KeyOf(blob, index) in r.0 && r.0[KeyOf(blob, index)] == r.1
    ensures r.0.Keys == fonts.Keys + {KeyOf(blob, index)}
    ensures Extends(fonts, r.0)
    ensures KeyOf(blob, index) in fonts ==> r.0 == fonts && r.1 == fonts[KeyOf(blob, index)]
    ensures KeyOf(blob, index) !in fonts ==> parse(blob.data, index) == Some(r.1)
  {
    var key := KeyOf(blob, index);
    if key in fonts then (fonts, fonts[key])
    else
      var font := parse(blob.data, index).value;
      (fonts[key := font], font)
  }

  /**
   * A hit does not consult the parser: with the key cached, any parser gives
   * the same answer.
   */
  lemma HitIgnoresParser<F>(fonts: map<FontKey, F>, blob: Blob, index: U32, parse: Parser<F>, other: Parser<F>)
    requires KeyOf(blob, index) in fonts
    ensures GetOrCreate(fonts, blob, index, parse) == GetOrCreate(fonts, blob, index, other)
  {
  }

  /**
   * Two calls for the same blob identity and index return the same font, and
   * the second call changes nothing, whichever parser and whichever bytes it
   * is given.
   */
  lemma SecondCallReturnsSameFont<F>(fonts: map<FontKey, F>, blob: Blob, again: Blob, index: U32, parse: Parser<F>, other: Parser<F>)
    requires CanServe(fonts, blob, index, parse)
    requires again.id == blob.id
    ensures var (after, first) := GetOrCreate(fonts, blob, index, parse);
      GetOrCreate(after, again, index, other) == (after, first)
  {
  }

  /**
   * The same blob with two different collection indices gives two entries,
   * each parsed with its own index.
   */
  lemma IndicesAreSeparateEntries<F>(fonts: map<FontKey, F>, blob: Blob, i: U32, j: U32, parse: Parser<F>)
    requires i != j && KeyOf(blob, i) !in fonts && KeyOf(blob, j) !in fonts
    requires parse(blob.data, i).Some? && parse(blob.data, j).Some?
    ensures var (m1, fi) := GetOrCreate(fonts, blob, i, parse);
      var (m2, fj) := GetOrCreate(m1, blob, j, parse);
      m2.Keys == fonts.Keys + {KeyOf(blob, i), KeyOf(blob, j)} &&
      Some(m2[KeyOf(blob, i)]) == parse(blob.data, i) && Some(m2[KeyOf(blob, j)]) == parse(blob.data, j) &&
      fi == m2[KeyOf(blob, i)] && fj == m2[KeyOf(blob, j)]
  {
  }

  /** A run of calls can complete: each call's parse, if it runs, succeeds. */
  ghost predicate CanServeAll<F>(fonts: map<FontKey, F>, reqs: seq<Request>, parse: Parser<F>)
    decreases |reqs|
  {
    reqs == [] ||
    (CanServe(fonts, reqs[0].blob, reqs[0].index, parse) &&
     CanServeAll(GetOrCreate(fonts, reqs[0].blob, reqs[0].index, parse).0, reqs[1..], parse))
  }

  /**
   * A run of calls in order: the final map, the font each call returned,
   * and how many times the parser ran.
   */
  ghost function Replay<F>(fonts: map<FontKey, F>, reqs: seq<Request>, parse: Parser<F>)
    : (r: (map<FontKey, F>, seq<F>, nat))
    requires CanServeAll(fonts, reqs, parse)
    ensures |r.1| == |reqs|
    ensures Extends(fonts, r.0)
    ensures forall i :: 0 <= i < |reqs| ==> KeyOf(reqs[i].blob, reqs[i].index) in r.0
    decreases |reqs|
  {
    if reqs == [] then (fonts, [], 0)
    else
      var (next, font) := GetOrCreate(fonts, reqs[0].blob, reqs[0].index, parse);
      var (final, fonts', parses) := Replay(next, reqs[1..], parse);
      assert forall i :: 1 <= i < |reqs| ==> reqs[i] == reqs[1..][i - 1];
      (final, [font] + fonts', parses + (if KeyOf(reqs[0].blob, reqs[0].index) in fonts then 0 else 1))
  }

  /** The keys a run of calls asks for. */
  ghost function RequestKeys(reqs: seq<Request>): set<FontKey>
    decreases |reqs|
  {
    if reqs == [] then {} else {KeyOf(reqs[0].blob, reqs[0].index)} + RequestKeys(reqs[1..])
  }

  /**
   * Over any run of calls the map only grows, never changing an entry, and
   * ends up holding exactly the keys it held plus the keys asked for; every
   * call's font is the final map's entry for its key, so calls with the same
   * key get the same font.
   */
  lemma {:induction false} ReplayMemoizes<F>(fonts: map<FontKey, F>, reqs: seq<Request>, parse: Parser<F>)
    requires CanServeAll(fonts, reqs, parse)
    ensures Extends(fonts, Replay(fonts, reqs, parse).0)
    ensures Replay(fonts, reqs, parse).0.Keys == fonts.Keys + RequestKeys(reqs)
    ensures forall i :: 0 <= i < |reqs| ==>
      Replay(fonts, reqs, parse).1[i] == Replay(fonts, reqs, parse).0[KeyOf(reqs[i].blob, reqs[i].index)]
    decreases |reqs|
  {
    if reqs != [] {
      var (next, font) := GetOrCreate(fonts, reqs[0].blob, reqs[0].index, parse);
      ReplayMemoizes(next, reqs[1..], parse);
      var r := Replay(fonts, reqs, parse);
      forall i | 0 <= i < |reqs| ensures r.1[i] == r.0[KeyOf(reqs[i].blob, reqs[i].index)] {
        if i > 0 {
          assert reqs[1..][i - 1] == reqs[i];
        }
      }
    }
  }

  /**
   * The parser runs exactly once for each key asked for that was not
   * already cached: never twice for the same key.
   */
  lemma {:induction false} ReplayParsesOncePerKey<F>(fonts: map<FontKey, F>, reqs: seq<Request>, parse: Parser<F>)
    requires CanServeAll(fonts, reqs, parse)
    ensures Replay(fonts, reqs, parse).2 == |RequestKeys(reqs) - fonts.Keys|
    decreases |reqs|
  {
    if reqs != [] {
      var key := KeyOf(reqs[0].blob, reqs[0].index);
      var next := GetOrCreate(fonts, reqs[0].blob, reqs[0].index, parse).0;
      ReplayParsesOncePerKey(next, reqs[1..], parse);
      FreshKeysCons(key, RequestKeys(reqs[1..]), fonts.Keys);
      assert next.Keys == fonts.Keys + {key};
    }
  }

  /** Counting the keys not yet cached, one request at a time. */
  lemma FreshKeysCons(key: FontKey, rest: set<FontKey>, cached: set<FontKey>)
    ensures |({key} + rest) - cached| == (if key in cached then 0 else 1) + |rest - (cached + {key})|
  {
    if key in cached {
      assert ({key} + rest) - cached == rest - (cached + {key});
    } else {
      assert ({key} + rest) - cached == {key} + (rest - (cached + {key}));
    }
  }

  /**
   * The cache object. Besides the map it records, as ghost state, every key
   * the parser has been run for: Valid says that the parser ran exactly once
   * for each cached key and for nothing else.
   */
  class FontdueFonts<F> {
    const parse: Parser<F>
    var fonts: map<FontKey, F>
    ghost var parsed: seq<FontKey>

    ghost predicate Valid()
      reads this
    {
      (forall i, j :: 0 <= i < j < |parsed| ==> parsed[i] != parsed[j]) &&
      (forall k :: k in fonts <==> k in parsed)
    }

    /** The cache starts empty. */
    constructor (parse: Parser<F>)
      ensures Valid() && this.parse == parse && fonts == map[] && parsed == []
    {
      this.parse := parse;
      fonts := map[];
      parsed := [];
    }

    /**
     * `get_or_create_fontdue_font`: the `entry(..).or_insert_with(..)` update
     * of the map in place.
     */
    method GetOrCreateFont(blob: Blob, index: U32) returns (font: F)
      requires Valid()
      requires CanServe(fonts, blob, index, parse)
      modifies this
      ensures Valid()
      ensures (fonts, font) == GetOrCreate(old(fonts), blob, index, parse)
      ensures parsed == old(parsed) + (if KeyOf(blob, index) in old(fonts) then [] else [KeyOf(blob, index)])
    {
      var key := KeyOf(blob, index);
      if key !in fonts {
        var created := parse(blob.data, index).value;
        fonts := fonts[key := created];
        parsed := parsed + [key];
      }
      font := fonts[key];
    }
  }
}
