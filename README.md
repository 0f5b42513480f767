# Font caches of the Slint software renderer

This project models the two memoization caches of the software renderer's
font layer and proves their contracts in Dafny.

- **Parsed-font cache** (`FONTDUE_FONTS`, `get_or_create_fontdue_font`): a map
  from `(blob id, collection index)` to the font parsed from that blob. It only
  grows. A miss runs the parser once and stores the result. A hit returns the
  stored font. Module `SystemFonts`: the operation is a function on the map,
  `GetOrCreate`. The map is also a class, `FontdueFonts`, whose method
  `GetOrCreateFont` updates it in place. A ghost log in the class records every
  key the parser ran for.
- **Rendered-glyph cache** (`GLYPH_CACHE`, `VectorFont::render_glyph`): a
  weighted LRU cache keyed by `(blob id, face index, pixel size, glyph id)`.
  An entry's weight is the byte length of its alpha map, and the capacity is
  1024 * 1024. A hit returns the cached glyph and makes it the most recently
  used entry. A miss rasterizes, builds the glyph with row stride equal to its
  width, and offers it to the cache. The `.ok()` result of that insert is
  discarded, and the glyph is returned either way. Module `VectorFonts`:
  `Render` specifies one call, and `RenderGlyph` runs it against the cache
  object.
- **Weighted LRU policy** (the `clru` crate's `get` and `put_with_weight`):
  module `WeightedLru`. The entries form a sequence in recency order: index 0
  is the least recently used, the last index the most recently used. A running
  total weight is kept beside them. Each entry also occupies one slot of
  clru's fixed-size list. The cache therefore bounds its load, the number of
  entries plus their total weight, by the capacity:
  - `put_with_weight` refuses an entry whose weight is at least the capacity;
  - otherwise it evicts while `len + weight + new weight >= capacity`.

  `Access` and `Insert` are the pure specifications. Class `LruCache`
  implements them in place, and `LruCache.EvictTo` holds the eviction loop.

The parser and the rasterizer are external. They are passed in as function
values: a parser returns `None` on failure, and a rasterizer returns metrics
and an alpha map. `FontBase` holds the Rust integer widths and the blob type.
`FixedPoint` models the renderer's fixed-point offset.

## Model

| member | source | states |
|---|---|---|
| SystemFonts.GetOrCreate | internal/core/software_renderer/fonts/systemfonts.rs:16-35 | the returned font is the map's entry for `(blob id, index)`; the key set grows by exactly that key and no earlier entry changes; a hit returns the stored font and leaves the map as it was; a miss returns exactly what parsing this blob with this index produced |
| SystemFonts.HitIgnoresParser | internal/core/software_renderer/fonts/systemfonts.rs:20-32 | when the key is cached, the result does not depend on the parser, so the parser only runs when the key is absent |
| SystemFonts.SecondCallReturnsSameFont | internal/core/software_renderer/fonts/systemfonts.rs:16-34 | a second call with the same blob id and index returns the same font and leaves the map unchanged, whatever parser and bytes it is given |
| SystemFonts.IndicesAreSeparateEntries | internal/core/software_renderer/fonts/systemfonts.rs:20-25 | one blob with two different indices gives two entries, each equal to the parse with its own index |
| SystemFonts.ReplayMemoizes | internal/core/software_renderer/fonts/systemfonts.rs:12-35 | over any run of calls the map never shrinks or changes an entry; it ends with its old keys plus the keys asked for; every call returns the final entry for its key, so equal keys get equal fonts |
| SystemFonts.ReplayParsesOncePerKey | internal/core/software_renderer/fonts/systemfonts.rs:20-32 | over any run of calls the parser runs exactly once per requested key that was not already cached |
| SystemFonts.FontdueFonts.constructor | internal/core/software_renderer/fonts/systemfonts.rs:12-14 | the cache starts empty and nothing has been parsed |
| SystemFonts.FontdueFonts.GetOrCreateFont | internal/core/software_renderer/fonts/systemfonts.rs:16-35 | the in-place update agrees with `GetOrCreate`; the parse log grows by the key only on a miss; the cached keys and the parsed keys stay equal and each key is parsed at most once |
| VectorFonts.Weight | internal/core/software_renderer/fonts/vectorfont.rs:16-20 | an entry's weight is the byte length of its alpha map: zero iff the map is empty, and width * height for a mono-channel bitmap of that size |
| VectorFonts.CacheKey | internal/core/software_renderer/fonts/vectorfont.rs:67 | a glyph is looked up under the font blob's identity, the face index, the pixel size and the glyph id |
| VectorFonts.NewFromBlobAndIndex | internal/core/software_renderer/fonts/vectorfont.rs:54-61 | the font keeps the given blob and parsed font, and caches each glyph under `(blob id, index, pixel size, glyph id)` |
| VectorFonts.KeysSeparateSizesAndFaces | internal/core/software_renderer/fonts/vectorfont.rs:12 | two cache keys are equal iff blob id, face index, pixel size and glyph id are all equal, so another pixel size or another face gets another entry |
| VectorFonts.BuildGlyph | internal/core/software_renderer/fonts/vectorfont.rs:77-83 | the built glyph has `pixel_stride == width == metrics.width` and `height == metrics.height`; it holds the alpha map unchanged, with weight equal to its length. Its vertical offset is `from_integer(metrics.ymin)`: its raw value is `ymin * 256` modulo 2^32. For `-2^23 <= ymin < 2^23`, negative values included, the raw value is exactly `ymin * 256` and the integer part is `ymin`; beyond that bound the shift wraps |
| FixedPoint.FromInteger | internal/core/software_renderer/fonts/vectorfont.rs:78 | `Fixed::from_integer` is a 32-bit wrapping shift by 8 bits: the raw value equals `v * 256` modulo 2^32, and equals it exactly when `|v| < 2^23` |
| FixedPoint.FromIntegerRoundTrip | internal/core/software_renderer/fonts/vectorfont.rs:78 | `from_integer(ymin)` has raw value `ymin * 256` and integer part `ymin`, for every `ymin` whose shifted value fits in 32 bits |
| VectorFonts.Render | internal/core/software_renderer/fonts/vectorfont.rs:63-89 | every call returns `Some`; the cache invariant holds afterwards: distinct keys, and entry count plus total weight at most 1,048,576 |
| VectorFonts.RenderHit | internal/core/software_renderer/fonts/vectorfont.rs:69-70 | on a hit the cached glyph is returned unchanged and promoted to most recent; the result does not depend on the rasterizer |
| VectorFonts.RenderMiss | internal/core/software_renderer/fonts/vectorfont.rs:72-86 | on a miss the glyph returned is the glyph offered to the cache; it is resident afterwards iff its alpha map is shorter than 1,048,576 bytes; if not, the cache is unchanged and the glyph is still returned |
| VectorFonts.RenderRepeat | internal/core/software_renderer/fonts/vectorfont.rs:67-86 | after a hit, or after a miss whose alpha map is shorter than the capacity, the key is resident and an immediate repeat returns an equal glyph without rasterizing |
| VectorFonts.RenderKeepsOtherEntries | internal/core/software_renderer/fonts/vectorfont.rs:67-86 | a call never adds or alters an entry under any other key |
| VectorFonts.RenderTwoSizes | internal/core/software_renderer/fonts/vectorfont.rs:67-86 | one glyph rendered at two pixel sizes gets two keys; when both fit beside what is cached, both end up resident, each holding the glyph built from its own size's raster |
| VectorFonts.ZeroSizeGlyphCached | internal/core/software_renderer/fonts/vectorfont.rs:16-20 | a glyph of zero width or height has an empty alpha map and weight 0, and a miss always caches it. Below full load it is appended and nothing is evicted; at full load its slot evicts exactly the least recently used entry |
| VectorFonts.NewGlyphCache | internal/core/software_renderer/fonts/vectorfont.rs:29-36 | the glyph cache starts empty, with capacity 1024 * 1024 and the alpha-map length as weight |
| VectorFonts.RenderGlyph | internal/core/software_renderer/fonts/vectorfont.rs:63-89 | the call on the cache object agrees with `Render` and keeps the cache valid; the rasterizer runs iff the key was not resident |
| WeightedLru.Access | internal/core/software_renderer/fonts/vectorfont.rs:69 | `get` returns the value stored under the key; a hit moves that entry to the most recent end, keeps the other entries in their relative order and keeps the same entries; a miss changes nothing |
| WeightedLru.Insert | internal/core/software_renderer/fonts/vectorfont.rs:85 | `put_with_weight` refuses iff the weight is at least the capacity, and a refused put leaves the cache unchanged; an accepted put makes the new entry the most recent and reports the value it replaced |
| WeightedLru.EvictUntil | internal/core/software_renderer/fonts/vectorfont.rs:85 | after eviction the remaining entries' load (count plus weight) is at most the budget |
| WeightedLru.EvictUntilKeepsNewest | internal/core/software_renderer/fonts/vectorfont.rs:85 | eviction drops entries only from the least recently used end, in order; it stops as soon as the rest fits |
| WeightedLru.AccessKeepsInvariant | internal/core/software_renderer/fonts/vectorfont.rs:69 | `get` keeps the same entries, total weight and load, so keys stay distinct and the load stays within capacity |
| WeightedLru.InsertKeepsInvariant | internal/core/software_renderer/fonts/vectorfont.rs:85 | `put_with_weight` keeps keys distinct and the load (entry count plus total weight) within capacity |
| WeightedLru.InsertContents | internal/core/software_renderer/fonts/vectorfont.rs:85 | after a put the key is resident iff the put was accepted or the key was already there; an accepted value is what a lookup finds; other entries were there before; the older survivors are the most recent part of the previous entries |
| WeightedLru.InsertWithinBudget | internal/core/software_renderer/fonts/vectorfont.rs:85 | a new key for which `len + weight + new weight < capacity` is appended and nothing is evicted |
| WeightedLru.EvictsLeastRecentlyUsed | internal/core/software_renderer/fonts/vectorfont.rs:85 | capacity 10 and three puts of weight 4: the first entry is evicted and the total is 8; if the first entry is read back before the third put, the second entry is evicted instead |
| WeightedLru.LruCache.constructor | internal/core/software_renderer/fonts/vectorfont.rs:31-33 | `with_config` makes an empty cache with the given non-zero capacity and weight scale |
| WeightedLru.LruCache.Get | internal/core/software_renderer/fonts/vectorfont.rs:69 | the in-place `get` agrees with `Access` and keeps the running weight equal to the entries' total |
| WeightedLru.LruCache.RemoveEntry | internal/core/software_renderer/fonts/vectorfont.rs:85 | the first step of a put drops the entry already stored under the key, returns its value and keeps the running weight exact |
| WeightedLru.LruCache.EvictTo | internal/core/software_renderer/fonts/vectorfont.rs:85 | the eviction loop, run while `len + weight` exceeds the budget, leaves exactly `EvictUntil` of the entries, with the running weight exact |
| WeightedLru.LruCache.PutWithWeight | internal/core/software_renderer/fonts/vectorfont.rs:85 | the in-place `put_with_weight` agrees with `Insert` and keeps the cache valid |

## Left out

- `register_font_from_memory` (systemfonts.rs:37-40) and `register_font_from_path` (systemfonts.rs:42-48) are left out:
  - `register_font_from_memory` copies static bytes into the collection;
  - `register_font_from_path` canonicalizes a path and reads the file;
  - both register the bytes in a global fontique collection that neither cache reads.
- `VectorFont::new` (vectorfont.rs:46-52) only forwards two fields of a fontique `QueryFont` to `new_from_blob_and_index`. fontique is not part of this model.
- fontdue's parsing and rasterization are external, so they are function parameters. The `scale: 40.` setting and the float cast of the pixel size are not modelled: both are floating point.
- A parse failure aborts through `expect`. The model states that as a precondition: every parse that a call would run succeeds (`SystemFonts.CanServe`).
- The `try_into().unwrap()` conversions of the metrics may panic. The model states that as a precondition, needed only on a miss: width and height fit in 16 signed bits (`VectorFonts.MetricsFit`). `ymin` is already an `i32`, so its conversion cannot fail.
- The caches live in thread-local `RefCell`s. Here each cache is an explicit object passed to the operation.
- `Rc` sharing is not modelled. Fonts and alpha maps are immutable values, so "the same font object" means an equal stored value.
- The `clru` crate (version 0.6) is not part of this model. Its `get` and `put_with_weight` are modelled from that crate's behaviour:
  - a put is refused when `weight >= capacity`;
  - otherwise least recently used entries are popped while `len + weight + new weight >= capacity`.

  Its hash map, random state and linked-list layout are left out.
- A pure weight bound would keep a 1,048,576-byte alpha map: it evicts while `weight + new weight > capacity` and refuses only `weight > capacity`. It would also never evict for a zero-size glyph. `clru` also charges each entry one slot, so:
  - an alpha map of exactly 1,048,576 bytes is refused;
  - a zero-size glyph evicts the least recently used entry when the load is already the whole capacity (`VectorFonts.ZeroSizeGlyphCached`).
- The renderer's `Fixed` type and `PhysicalLength` are not part of this model. `Fixed` is modelled as a 32-bit raw value with 8 fractional bits, and `from_integer` as a wrapping left shift. `PhysicalLength` is modelled as a 16-bit signed integer.
- VectorFonts.ZeroSizeGlyphCached: the alpha map's length is `width * height` only because the rasterizer promises it. The lemma takes that promise as a hypothesis.
