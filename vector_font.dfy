/**
 * Vector fonts of the software renderer and their rendered-glyph cache
 * (`GLYPH_CACHE` and `VectorFont::render_glyph`).
 *
 * A rendered glyph is cached under the blob identity, the face index, the
 * pixel size and the glyph id, in a weighted LRU cache whose weight is the
 * byte length of the glyph's alpha map and whose capacity is 1024 * 1024.
 * The rasterizer is an external operation, passed in as a function.
 */
module VectorFonts {
  import opened Optional
  import opened FontBase
  import opened FixedPoint
  import opened WeightedLru

  /** A glyph id: a non-zero 16-bit integer (`NonZeroU16`). */
  type GlyphId = x: int | 1 <= x < 0x1_0000 witness 1

  /** A length in physical pixels, a 16-bit signed integer. */
  type PhysicalLength = I16

  /** `GlyphCacheKey`: blob identity, face index, pixel size, glyph id. */
  type GlyphCacheKey = (U64, U32, PhysicalLength, GlyphId)

  /** `RenderableVectorGlyph`: a rasterized glyph ready to be painted. */
  datatype RenderableVectorGlyph = RenderableVectorGlyph(
    y: Fixed,
    width: PhysicalLength,
    height: PhysicalLength,
    alphaMap: seq<bv8>,
    pixelStride: U16)

  /** The fields of the rasterizer's metrics that a glyph is built from. */
  datatype Metrics = Metrics(width: nat, height: nat, ymin: I32)

  /** Rasterizes a glyph of a parsed font at a pixel size: metrics and alpha map. */
  type Rasterizer<-F> = (F, GlyphId, PhysicalLength) -> (Metrics, seq<bv8>)

  /** Total weight the glyph cache may hold. */
  const GlyphCacheCapacity: nat := 1024 * 1024

  /**
   * `RenderableGlyphWeightScale::weight`: the byte length of the alpha map,
   * which is width * height for a mono-channel bitmap; an empty bitmap weighs
   * nothing.
   */
  function Weight(g: RenderableVectorGlyph): (r: nat)
    ensures r == 0 <==> g.alphaMap == []
    ensures |g.alphaMap| == g.width * g.height ==> r == g.width * g.height
  {
    |g.alphaMap|
  }

  /** A font of the software renderer: a face of a blob, parsed, at a pixel size. */
  datatype VectorFont<F> = VectorFont(
    fontIndex: U32,
    fontBlob: Blob,
    fontdueFont: F,
    pixelSize: PhysicalLength)

  /**
   * The key `render_glyph` looks a glyph of this font up under: the blob's
   * identity rather than its bytes, the face index, the pixel size and the
   * glyph id; the parsed font plays no part in it.
   */
  function CacheKey<F>(font: VectorFont<F>, glyphId: GlyphId): (r: GlyphCacheKey)
    ensures r.0 == font.fontBlob.id && r.1 == font.fontIndex
    ensures r.2 == font.pixelSize && r.3 == glyphId
  {
    (font.fontBlob.id, font.fontIndex, font.pixelSize, glyphId)
  }

  /**
   * `VectorFont::new_from_blob_and_index`: the font caches its glyphs under
   * the given blob's identity, the given index and the given pixel size, and
   * rasterizes them with the given parsed font.
   */
  function NewFromBlobAndIndex<F>(fontBlob: Blob, fontIndex: U32, fontdueFont: F, pixelSize: PhysicalLength)
    : (r: VectorFont<F>)
    ensures forall g: GlyphId :: CacheKey(r, g) == (fontBlob.id, fontIndex, pixelSize, g)
    ensures r.fontdueFont == fontdueFont && r.fontBlob == fontBlob
  {
    VectorFont(fontIndex, fontBlob, fontdueFont, pixelSize)
  }

  /** The metrics convert without panicking: width and height fit a PhysicalLength. */
  predicate MetricsFit(m: Metrics)
  {
    m.width < 0x8000 && m.height < 0x8000
  }

  /**
   * The glyph built from the rasterizer's output: the alpha map is tightly
   * packed, so the row stride is the width; the vertical offset is the
   * metrics' ymin as a fixed-point integer, and the weight is the alpha map's
   * length.
   */
  function BuildGlyph(m: Metrics, alphaMap: seq<bv8>): (g: RenderableVectorGlyph)
    requires MetricsFit(m)
    ensures g.pixelStride == g.width == m.width && g.height == m.height
    ensures g.alphaMap == alphaMap && Weight(g) == |alphaMap|
    ensures (g.y.raw - m.ymin * One) % 0x1_0000_0000 == 0
    ensures -0x80_0000 <= m.ymin < 0x80_0000 ==> g.y.raw == m.ymin * One && IntegerPart(g.y) == m.ymin
  {
    FromIntegerRoundTrip(m.ymin);
    RenderableVectorGlyph(FromInteger(m.ymin), m.width, m.height, alphaMap, m.width)
  }

  /** The call can complete: the glyph is cached, or its metrics convert. */
  ghost predicate CanRender<F>(entries: seq<Entry<GlyphCacheKey, RenderableVectorGlyph>>, font: VectorFont<F>,
                               glyphId: GlyphId, raster: Rasterizer<F>)
  {
    Resident(entries, CacheKey(font, glyphId)) || MetricsFit(raster(font.fontdueFont, glyphId, font.pixelSize).0)
  }

  /**
   * `render_glyph` on the cache's entries as a value: the new entries and the
   * glyph returned. A hit returns the cached glyph and makes it the most
   * recently used; a miss rasterizes, builds the glyph, offers it to the
   * cache and returns it whether or not the cache took it. It always returns
   * a glyph, and the cache invariant (distinct keys, total weight within
   * 1024 * 1024) is kept.
   */
  function Render<F>(entries: seq<Entry<GlyphCacheKey, RenderableVectorGlyph>>, font: VectorFont<F>,
                     glyphId: GlyphId, raster: Rasterizer<F>)
    : (r: (seq<Entry<GlyphCacheKey, RenderableVectorGlyph>>, Option<RenderableVectorGlyph>))
    requires CanRender(entries, font, glyphId, raster)
    ensures r.1.Some?
    ensures Inv(entries, GlyphCacheCapacity, Weight) ==> Inv(r.0, GlyphCacheCapacity, Weight)
  {
    var key := CacheKey(font, glyphId);
    var (promoted, hit) := Access(entries, key);
    AccessKeepsInvariant(entries, GlyphCacheCapacity, Weight, key);
    if hit.Some? then (promoted, hit)
    else
      var (metrics, alphaMap) := raster(font.fontdueFont, glyphId, font.pixelSize);
      var glyph := BuildGlyph(metrics, alphaMap);
      InsertKeepsInvariant(entries, GlyphCacheCapacity, Weight, key, glyph);
      (Insert(entries, GlyphCacheCapacity, Weight, key, glyph).0, Some(glyph))
  }

  /**
   * On a hit the cached glyph is returned unchanged and made the most
   * recently used, and the rasterizer is not consulted: any other rasterizer
   * gives the same result.
   */
  lemma RenderHit<F>(entries: seq<Entry<GlyphCacheKey, RenderableVectorGlyph>>, font: VectorFont<F>,
                     glyphId: GlyphId, raster: Rasterizer<F>, other: Rasterizer<F>)
    requires Resident(entries, CacheKey(font, glyphId))
    ensures Render(entries, font, glyphId, raster) == Render(entries, font, glyphId, other)
    ensures Render(entries, font, glyphId, raster) == Access(entries, CacheKey(font, glyphId))
    ensures Render(entries, font, glyphId, raster).1 == Lookup(entries, CacheKey(font, glyphId))
  {
  }

  /**
   * On a miss the glyph returned is the one built from the rasterizer's
   * output, the same value offered to the cache. The cache keeps it exactly
   * when its weight is below the capacity; otherwise the cache is left as
   * it was, and the caller still gets the glyph.
   */
  lemma RenderMiss<F>(entries: seq<Entry<GlyphCacheKey, RenderableVectorGlyph>>, font: VectorFont<F>,
                      glyphId: GlyphId, raster: Rasterizer<F>)
    requires Inv(entries, GlyphCacheCapacity, Weight)
    requires !Resident(entries, CacheKey(font, glyphId))
    requires MetricsFit(raster(font.fontdueFont, glyphId, font.pixelSize).0)
    ensures var (m, alphaMap) := raster(font.fontdueFont, glyphId, font.pixelSize);
      var (after, result) := Render(entries, font, glyphId, raster);
      && result == Some(BuildGlyph(m, alphaMap))
      && (Resident(after, CacheKey(font, glyphId)) <==> |alphaMap| < GlyphCacheCapacity)
      && (|alphaMap| < GlyphCacheCapacity ==> Lookup(after, CacheKey(font, glyphId)) == result)
      && (|alphaMap| >= GlyphCacheCapacity ==> after == entries)
  {
    var key := CacheKey(font, glyphId);
    var (m, alphaMap) := raster(font.fontdueFont, glyphId, font.pixelSize);
    InsertContents(entries, GlyphCacheCapacity, Weight, key, BuildGlyph(m, alphaMap));
  }

  /**
   * A call that leaves the glyph cached (a hit, or a miss whose glyph weighs
   * less than the capacity) is followed by a hit: repeating it at once returns an equal
   * glyph, whatever the rasterizer would now produce.
   */
  lemma RenderRepeat<F>(entries: seq<Entry<GlyphCacheKey, RenderableVectorGlyph>>, font: VectorFont<F>,
                        glyphId: GlyphId, raster: Rasterizer<F>, other: Rasterizer<F>)
    requires Inv(entries, GlyphCacheCapacity, Weight)
    requires CanRender(entries, font, glyphId, raster)
    requires Resident(entries, CacheKey(font, glyphId)) ||
             |raster(font.fontdueFont, glyphId, font.pixelSize).1| < GlyphCacheCapacity
    ensures var (after, first) := Render(entries, font, glyphId, raster);
      Resident(after, CacheKey(font, glyphId)) && Render(after, font, glyphId, other).1 == first
  {
    var key := CacheKey(font, glyphId);
    var (after, first) := Render(entries, font, glyphId, raster);
    if Resident(entries, key) {
      AccessKeepsInvariant(entries, GlyphCacheCapacity, Weight, key);
      var i := |after| - 1;
      assert after[i].key == key;
      LookupDistinct(after, i);
    } else {
      RenderMiss(entries, font, glyphId, raster);
    }
    RenderHit(after, font, glyphId, other, other);
  }

  /**
   * A call never invents or alters an entry under another key: every entry
   * left under a different key was in the cache before.
   */
  lemma RenderKeepsOtherEntries<F>(entries: seq<Entry<GlyphCacheKey, RenderableVectorGlyph>>, font: VectorFont<F>,
                                   glyphId: GlyphId, raster: Rasterizer<F>)
    requires Inv(entries, GlyphCacheCapacity, Weight)
    requires CanRender(entries, font, glyphId, raster)
    ensures forall e :: e in Render(entries, font, glyphId, raster).0 && e.key != CacheKey(font, glyphId) ==> e in entries
  {
    var key := CacheKey(font, glyphId);
    AccessKeepsInvariant(entries, GlyphCacheCapacity, Weight, key);
    if !Resident(entries, key) {
      var (m, alphaMap) := raster(font.fontdueFont, glyphId, font.pixelSize);
      InsertContents(entries, GlyphCacheCapacity, Weight, key, BuildGlyph(m, alphaMap));
    }
  }

  /**
   * The key tells glyphs apart by blob, face index, pixel size and glyph id:
   * the same glyph at another pixel size, or of another face of the same
   * blob, is a separate entry.
   */
  lemma KeysSeparateSizesAndFaces<F>(a: VectorFont<F>, b: VectorFont<F>, g: GlyphId, h: GlyphId)
    ensures CacheKey(a, g) == CacheKey(b, h) <==>
      a.fontBlob.id == b.fontBlob.id && a.fontIndex == b.fontIndex && a.pixelSize == b.pixelSize && g == h
  {
  }

  /**
   * The same glyph rendered at two pixel sizes is two entries, each holding
   * the bitmap rasterized at its own size: when both fit beside what is
   * cached, rendering at one size then at the other leaves both resident and
   * neither replaces the other.
   */
  lemma RenderTwoSizes<F>(entries: seq<Entry<GlyphCacheKey, RenderableVectorGlyph>>, font: VectorFont<F>,
                          size: PhysicalLength, glyphId: GlyphId, raster: Rasterizer<F>)
    requires Inv(entries, GlyphCacheCapacity, Weight) && size != font.pixelSize
    requires !Resident(entries, CacheKey(font, glyphId)) && !Resident(entries, CacheKey(font.(pixelSize := size), glyphId))
    requires MetricsFit(raster(font.fontdueFont, glyphId, font.pixelSize).0)
    requires MetricsFit(raster(font.fontdueFont, glyphId, size).0)
    requires Load(entries, Weight) + 2 + |raster(font.fontdueFont, glyphId, font.pixelSize).1|
             + |raster(font.fontdueFont, glyphId, size).1| <= GlyphCacheCapacity
    ensures var other := font.(pixelSize := size);
      var (m1, a1) := raster(font.fontdueFont, glyphId, font.pixelSize);
      var (m2, a2) := raster(font.fontdueFont, glyphId, size);
      var after := Render(Render(entries, font, glyphId, raster).0, other, glyphId, raster).0;
      && CacheKey(font, glyphId) != CacheKey(other, glyphId)
      && Lookup(after, CacheKey(font, glyphId)) == Some(BuildGlyph(m1, a1))
      && Lookup(after, CacheKey(other, glyphId)) == Some(BuildGlyph(m2, a2))
  {
    var other := font.(pixelSize := size);
    var (m1, a1) := raster(font.fontdueFont, glyphId, font.pixelSize);
    var (m2, a2) := raster(font.fontdueFont, glyphId, size);
    var k1, k2 := CacheKey(font, glyphId), CacheKey(other, glyphId);
    var g1, g2 := BuildGlyph(m1, a1), BuildGlyph(m2, a2);
    InsertWithinBudget(entries, GlyphCacheCapacity, Weight, k1, g1);
    var mid := entries + [Entry(k1, g1)];
    assert Render(entries, font, glyphId, raster).0 == mid;
    AppendDistinct(entries, Entry(k1, g1));
    assert Load(mid, Weight) == Load(entries, Weight) + 1 + |a1| by {
      TotalWeightAppend(entries, [Entry(k1, g1)], Weight);
    }
    assert !Resident(mid, k2) by {
      forall i | 0 <= i < |mid| ensures mid[i].key != k2 {
        if i < |entries| {
          assert mid[i] == entries[i];
        }
      }
    }
    InsertWithinBudget(mid, GlyphCacheCapacity, Weight, k2, g2);
    var after := mid + [Entry(k2, g2)];
    assert Render(mid, other, glyphId, raster).0 == after;
    AppendDistinct(mid, Entry(k2, g2));
    assert after[|entries|] == Entry(k1, g1);
    LookupDistinct(after, |entries|);
    LookupDistinct(after, |entries| + 1);
  }

  /**
   * A zero-size glyph (such as a space) has an empty alpha map and weight 0.
   * On a miss it is always cached. It evicts nothing unless the cache's load
   * is already the whole capacity; then the entry's own slot evicts exactly
   * the least recently used entry.
   */
  lemma ZeroSizeGlyphCached<F>(entries: seq<Entry<GlyphCacheKey, RenderableVectorGlyph>>, font: VectorFont<F>,
                               glyphId: GlyphId, raster: Rasterizer<F>)
    requires Inv(entries, GlyphCacheCapacity, Weight)
    requires !Resident(entries, CacheKey(font, glyphId))
    requires var (m, alphaMap) := raster(font.fontdueFont, glyphId, font.pixelSize);
      MetricsFit(m) && (m.width == 0 || m.height == 0) && |alphaMap| == m.width * m.height
    ensures var (m, alphaMap) := raster(font.fontdueFont, glyphId, font.pixelSize);
      var glyph := BuildGlyph(m, alphaMap);
      var key := CacheKey(font, glyphId);
      && glyph.alphaMap == [] && Weight(glyph) == 0
      && (Load(entries, Weight) < GlyphCacheCapacity ==>
            Render(entries, font, glyphId, raster) == (entries + [Entry(key, glyph)], Some(glyph)))
      && (Load(entries, Weight) == GlyphCacheCapacity ==>
            |entries| > 0 && Render(entries, font, glyphId, raster) == (entries[1..] + [Entry(key, glyph)], Some(glyph)))
  {
    var (m, alphaMap) := raster(font.fontdueFont, glyphId, font.pixelSize);
    var glyph := BuildGlyph(m, alphaMap);
    var key := CacheKey(font, glyphId);
    assert |alphaMap| == 0;
    if Load(entries, Weight) < GlyphCacheCapacity {
      InsertWithinBudget(entries, GlyphCacheCapacity, Weight, key, glyph);
    } else {
      assert IndexOf(entries, key).None?;
      assert entries != [];
      var budget := GlyphCacheCapacity - 1;
      assert Load(entries, Weight) > budget;
      assert Load(entries[1..], Weight) <= budget;
      assert EvictUntil(entries[1..], budget, Weight) == entries[1..];
    }
  }

  /** The thread's glyph cache: empty, with capacity 1024 * 1024 and the alpha-map weight. */
  method NewGlyphCache() returns (cache: LruCache<GlyphCacheKey, RenderableVectorGlyph>)
    ensures fresh(cache) && cache.Valid()
    ensures cache.capacity == GlyphCacheCapacity && cache.scale == Weight && cache.entries == []
  {
    cache := new LruCache(GlyphCacheCapacity, Weight);
  }

  /**
   * `VectorFont::render_glyph` against the thread's glyph cache. The ghost
   * result says whether the rasterizer ran: exactly when the glyph was not
   * cached.
   */
  method RenderGlyph<F>(font: VectorFont<F>, glyphId: GlyphId, cache: LruCache<GlyphCacheKey, RenderableVectorGlyph>,
                        raster: Rasterizer<F>)
    returns (r: Option<RenderableVectorGlyph>, ghost rasterized: bool)
    requires cache.Valid() && cache.capacity == GlyphCacheCapacity && cache.scale == Weight
    requires CanRender(cache.entries, font, glyphId, raster)
    modifies cache
    ensures cache.Valid()
    ensures (cache.entries, r) == Render(old(cache.entries), font, glyphId, raster)
    ensures rasterized <==> !Resident(old(cache.entries), CacheKey(font, glyphId))
  {
    var key := CacheKey(font, glyphId);
    var hit := cache.Get(key);
    if hit.Some? {
      r := Some(hit.value);
      rasterized := false;
    } else {
      var (metrics, alphaMap) := raster(font.fontdueFont, glyphId, font.pixelSize);
      var glyph := BuildGlyph(metrics, alphaMap);
      var _ := cache.PutWithWeight(key, glyph);
      r := Some(glyph);
      rasterized := true;
    }
  }
}
