# pdfreader core in Dafny

This project models the core of a small PDF reader written in Go and proves
properties of the model. It covers four pieces:

- **The reader (`pdfread.go`)**:
  - the byte-level parsers: leading-digit numbers, the `n g R` reference
    lookahead, dictionaries and arrays;
  - the cross-reference machinery: `xrefSkip` and `xrefRead`, which follows
    the `/Prev` chain of incremental updates and replays the 20-byte entries;
  - the trailer steps of `Load`;
  - the reader object with its three caches: `resolve`, `obj`, `num`, `Dic`,
    `Arr`, `ForcedArray`, `Pages`, `attribute`, `Att`, `stream` and
    `DecodedStream` with its filter dispatch.
- **The LZW decoder (`lzw/lzw.go`)** of section 7.4.4 of ISO 32000-1:
  `reset`, `update`, `token`, the length pass `CalculateLength`, the byte pass
  `DecodeToSlice` and `Decode`.
- **Decimal string arithmetic (`strm/strm.go`)**: `operand`, `Int64`, `twop`,
  `String`, `Add`, `Sub`, `Neg` and `Percent`.
- **The Type 1 font helpers (`type1/type1.go`)**:
  - `T1Decrypt`, the eexec/charstring cipher of the Adobe Type 1 Font Format,
    chapter 7;
  - the zero-run scan of `eexec` and the four plain-text bytes it drops;
  - `find` on the interpreter's dictionary stack.

## How the model is built

One Dafny module per concern, one file each:

| module | file | role |
|---|---|---|
| `Bytes` | `bytes.dfy` | `byte`, `Option`, `Res`, slices |
| `Lexer` | `lexer.dfy` | the tokenizer interface the reader needs, and a tokenizer that meets it |
| `PdfSyntax` | `pdf_syntax.dfy` | `num`, `refToken`, `tupel`, `dictionary`, `array` |
| `PdfXref` | `pdf_xref.dfy` | `xrefSkip`, `xrefRead` |
| `PdfObjects` | `pdf_objects.dfy` | cache-free functions of the object layer |
| `PdfReader` | `pdf_reader.dfy` | `Load`, and the reader class with its caches |
| `Lzw` | `lzw.dfy` | the decoder class and both passes |
| `Strm` | `strm.dfy` | decimal string arithmetic |
| `Type1` | `type1.dfy` | cipher, eexec scan, dictionary stack |

Conventions:

- **Panics.** A Go run-time panic (an index out of range, a slice past the
  data, a nil dereference, division by zero) is the `Panic` alternative of
  `Res<T>`, never a precondition. A Go nil map or slice result is `None`.
- **Loops become methods.** Where the Go code loops or updates state, the
  model is a `method` proved equal to a specification function, such as
  `XrefRead` and `XrefOf`, or `Percent` and `PercentOf`. The properties the
  code promises are then lemmas about that function.
- **The reader class.** The reader keeps its Go fields: `rcache`, `rncache`,
  `dicache` and `pages`. Every method is proved to return the cache-free
  answer of `PdfObjects`. Every method also keeps the invariant that each
  cached entry equals that answer.
- **The LZW byte pass.** It keeps Go's aliasing. A dictionary slot is a span
  `out[k..e]` of the output buffer, and codes are copied one byte at a time,
  overlapping copies included. It is proved to produce the same bytes as
  string-table LZW decoding (`ClassicFrom`) that, like `lzw.go`, keeps the
  table and the pending entry across a clear code.
- **The tokenizer is abstract.** The tokenizer package is outside the core,
  so the reader takes `lex: Lex`, which is any function obeying the tokenizer
  contract:
  - the token is a slice of the data at or after the position;
  - only whitespace is skipped before it, and the token is empty exactly
    when the data is used up;
  - re-reading from the token's start gives the same token.

  `Lexer.Token` is one tokenizer proved to meet that contract.

## Model

| member | source | states |
|---|---|---|
| PdfSyntax.Num | pdfread.go:61-70 | the value of the leading run of decimal digits; 0 when the bytes are empty or do not start with a digit |
| PdfSyntax.NumOfIgnoresTail | pdfread.go:61-70 | bytes after the first non-digit never change the value |
| PdfSyntax.NumFromDigits | pdfread.go:61-70 | reading digits and then more bytes continues from the digits' value: the loop composes over concatenation |
| PdfSyntax.NumOfPadded | pdfread.go:61-70 | a number written zero-padded to a width, followed by a non-digit, reads back as itself (the ten-digit offset of an xref entry) |
| PdfSyntax.RefToken | pdfread.go:72-85 | the token starts where the tokenizer's token starts, is empty exactly when that one is, and is the contiguous slice of the data it spans, with the reader left right after it |
| PdfSyntax.RefTokenShape | pdfread.go:72-85 | the result differs from the plain token exactly when that token starts with a digit and the third token is `R`; it then runs from the first token through the `R` |
| PdfSyntax.Tupel | pdfread.go:87-93 | exactly `count` tokens, read one after another |
| PdfSyntax.Dictionary | pdfread.go:132-155 | equals `DictOf`: nil unless framed by `<<` and `>>` and every key token is a name; otherwise each key maps to its value token, a reference kept whole |
| PdfSyntax.DictOfFacts | pdfread.go:132-155 | fewer than 4 bytes or a missing frame gives nil; `<<>>` gives the empty map; every key starts with `/`; every value is a slice of the input |
| PdfSyntax.PairsKeysAreNames | pdfread.go:142-153 | every key the loop stores starts with `/` |
| PdfSyntax.PairsAreSlices | pdfread.go:142-153 | every value the loop stores is a slice of the dictionary body |
| PdfSyntax.ToMapKeys | pdfread.go:150-152 | a key is in the dictionary exactly when some key/value pair of the input has it |
| PdfSyntax.ToMapLastWins | pdfread.go:150-152 | for a repeated key, the last occurrence's value is kept |
| PdfSyntax.ToMapValues | pdfread.go:150-152 | every stored value is the value of a pair of the input with that key |
| PdfSyntax.Array | pdfread.go:158-176 | equals `ArrayOf`: nil unless framed by `[` and `]` or when there are no elements; a panic at 1024 elements, the preallocated slots; otherwise the element tokens in order |
| PdfSyntax.ArrayOfFacts | pdfread.go:158-176 | unframed input gives nil; a non-nil array has 1 to 1023 elements, each non-empty and a slice of the input |
| PdfSyntax.ElementsAreSlices | pdfread.go:165-171 | every element is a slice of the array body |
| PdfXref.XrefSkip | pdfread.go:111-129 | equals `XrefSkipOf`: -1 unless the first token is `xref`; otherwise the offset of the first token that does not start with a digit, after stepping 20 bytes per announced entry; a panic when the data ends first |
| PdfXref.SubsectionsFrom | pdfread.go:117-126 | a section that reads ends at a token inside the data, at or after where the scan began |
| PdfXref.SubsectionsFit | pdfread.go:117-126 | when the section reads, the entry bytes of every subsection lie inside the data |
| PdfXref.ChainFrom | pdfread.go:185-197 | a `/Prev` chain that reads starts at the given offset, has between 1 and the remaining of the 1024 `back` slots, and each of its sections is well formed (`xref`, subsections, `trailer`) |
| PdfXref.NextOf | pdfread.go:186-196 | a chain step panics when no `xref` starts at the offset, since the skip then sends the reader to offset -1; a step that continues is at a well-formed section |
| PdfXref.CollectChain | pdfread.go:182-197 | fills `back` with the chain from the start offset, newest first, and gives its length exactly when `ChainFrom` gives that chain; a panic or nil exactly when `ChainFrom` does |
| PdfXref.FollowSection | pdfread.go:186-196 | one step of the chain loop equals `NextOf`: a panic (also for a skip result of -1), nil without `trailer`, or the trailer's `/Prev` number if it has one |
| PdfXref.SubEntries | pdfread.go:209-218 | a subsection holds `count` entries of 20 bytes, numbered consecutively from its first object number |
| PdfXref.ReplaySubsection | pdfread.go:209-218 | the map after one subsection is its entries applied in order: a type-`n` entry sets its object's offset, any other deletes it |
| PdfXref.NextSubsection | pdfread.go:203-209 | one turn of the subsection loop: nil exactly at the `trailer`, otherwise the next subsection, whose entries lie inside the data, with the scan moved past its header |
| PdfXref.ReplaySection | pdfread.go:201-219 | the map after one section is all its subsections' entries applied in order |
| PdfXref.ReplayChain | pdfread.go:198-221 | the map is every entry of the chain applied to the empty map, oldest section first |
| PdfXref.XrefRead | pdfread.go:181-222 | equals `XrefOf`: a panic, nil when a section on the chain lacks `trailer`, or the replay of the whole chain |
| PdfXref.ApplyAllAppend | pdfread.go:198-221 | replaying `a + b` is replaying `b` after `a` |
| PdfXref.ApplyAllUntouched | pdfread.go:211-218 | an object no entry names keeps its presence and offset |
| PdfXref.ApplyAllLastWins | pdfread.go:211-218 | the last entry for an object decides: present exactly when its type byte is `n`, and then at the number in its first ten bytes |
| PdfXref.XrefOfUnmentioned | pdfread.go:181-222 | an object no section of the chain mentions is absent from the map |
| PdfXref.XrefOfLastWins | pdfread.go:181-222 | the newest entry for an object across all updates decides whether and where it is in the map |
| PdfXref.ChainOkFrom | pdfread.go:198-202 | every suffix of a well-formed chain is well formed, so each replayed section reads |
| PdfReader.LoadTakesNewestTrailer | pdfread.go:441-452 | once the xref chain reads, `Load` succeeds exactly when the trailer of the newest section parses, and keeps that trailer with the merged map |
| PdfObjects.ObjectAt | pdfread.go:227-239 | (-1, empty) for an object with no xref entry; the value is always a slice of the file, and when non-empty it ends at the returned offset |
| PdfObjects.CycleEmpty | pdfread.go:258-260 | a chain of references that comes back to an object number already visited resolves to (-1, empty) |
| PdfObjects.VisitedIrrelevant | pdfread.go:249-270 | along a chain, marking fewer of its predecessors as visited does not change where resolution ends |
| PdfObjects.ResolveFresh | pdfread.go:249-270 | what a cache entry records from inside a chain equals a fresh resolution, so a cache hit answers as resolving would |
| PdfObjects.ResolveChain | pdfread.go:262-265 | following one reference link does not change the result |
| PdfObjects.ResolveEnds | pdfread.go:243-272 | resolution ends at (-1, empty) for a cycle, at (-1, value) for something it does not follow, or at a file slice that does not look like a reference, ending at the returned offset |
| PdfObjects.ResolveIdempotent | pdfread.go:277-280 | resolving an already resolved value gives it back unchanged |
| PdfObjects.Visit | pdfread.go:324-334 | a visit that does not panic marks the reference visited, and only adds to the visited set |
| PdfObjects.WalkFrom | pdfread.go:322-336 | a walk only adds to the visited set |
| PdfObjects.WalkHit | pdfread.go:324-334 | a reference already visited panics ("Bad Page-Tree!") |
| PdfObjects.WalkRepeat | pdfread.go:322-336 | a `/Kids` list naming the same reference twice panics |
| PdfObjects.VisitLeaves | pdfread.go:324-334 | one visit yields distinct leaf references: non-empty, not visited before, and with a dictionary without `/Kids` |
| PdfObjects.WalkLeaves | pdfread.go:322-336 | the walk yields distinct leaf references, in order |
| PdfObjects.PagesDicOf | pdfread.go:317 | every value of the `/Pages` dictionary is a slice of the file or of the `/Root` value |
| PdfObjects.PageTreeOf | pdfread.go:317-318 | the root `/Kids` are non-empty slices of the file or of the `/Root` value |
| PdfObjects.PagesFacts | pdfread.go:313-339 | the page slice holds distinct leaf references first, then nil slots only |
| PdfObjects.ParentWalkDistinct | pdfread.go:349-353 | a `/Parent` walk (`ParentWalk`: each entry the `/Parent` of the dictionary before it, no dictionary before the last with the key) never visits a reference twice, nor one in `done` |
| PdfObjects.AttrFromSource | pdfread.go:346-357 | a non-empty value found by the `/Parent` loop from a dictionary is the key's value at the end of a `/Parent` walk from it, the dictionary itself for the empty walk |
| PdfObjects.AttrFromPath | pdfread.go:346-357 | conversely, a `/Parent` walk that ends at a dictionary with the key makes the loop return that dictionary's value |
| PdfObjects.AttrFromCycle | pdfread.go:349-352 | a walk whose last dictionary lacks the key and names as its parent a reference visited before or on the walk makes the loop return the empty value |
| PdfObjects.AttributeSource | pdfread.go:344-358 | a non-empty attribute of a page is the key's value at the end of a `/Parent` walk from the page's dictionary |
| PdfObjects.AttributeAlong | pdfread.go:344-358 | inheritance along any `/Parent` walk: the first dictionary on it with the key supplies the attribute |
| PdfObjects.AttributeInherited | pdfread.go:344-358 | a page without the key takes its parent's value |
| PdfObjects.AttributeCycle | pdfread.go:349-352 | a parent seen twice ends the search with the empty value: a walk from the page whose last dictionary lacks the key and names as its parent a reference already on the walk |
| PdfObjects.StreamFacts | pdfread.go:367-378 | stream data is a slice of the file; when non-empty, it is exactly `/Length` bytes of the dictionary returned with it |
| PdfObjects.TrimLow | pdfread.go:405-408 | a prefix of the data, at least one byte long, and every byte dropped is below 33; a last kept byte below 33 only when one byte is left |
| PdfObjects.A85Trim | pdfread.go:405-411 | the trimmed data, minus a final `~>` when one is there |
| PdfObjects.UnknownLastFilter | pdfread.go:391-418 | an unknown last filter name leaves no data, whatever came before it |
| PdfObjects.EarlyDefault | pdfread.go:397-402 | the early-change flag is false exactly when `/EarlyChange` is present and does not resolve to 1 |
| PdfReader.LoadOf | pdfread.go:437-452 | the trailer steps of `Load`: -1 from `xrefStart` panics (the `log.Fatalln` exit); nil when `xrefRead` gives nil, when no `trailer` follows the newest section, or when the dictionary after it does not parse; otherwise the xref map and that dictionary |
| PdfReader.Reader.Load | pdfread.go:433-456 | follows `LoadOf`: a fresh reader satisfying `Valid()` with that xref map and trailer; a panic where `LoadOf` panics and nil where it gives nil |
| PdfReader.Reader.constructor | pdfread.go:453-455 | the reader starts with empty caches and no page slice, and satisfies the invariant |
| PdfReader.Reader.Object | pdfread.go:227-239 | equals `ObjectAt` for the reader's document |
| PdfReader.Reader.ResolveInner | pdfread.go:249-270 | the inner closure, on a chain whose visited set is its predecessors, returns the fresh resolution and keeps every cache entry equal to it; no cache entry is dropped, and on success the reference and every reference it leads on to are cached, up to one already cached or an object number seen again |
| PdfReader.Reader.Remember | pdfread.go:266-267 | storing a fresh resolution adds exactly that entry to both caches and keeps the invariant |
| PdfReader.Reader.Resolve | pdfread.go:243-272 | equals `ResolveOf`; all caches stay equal to the cache-free answers and only grow; a resolved reference is cached, with the references on its chain (`ChainCached`) |
| PdfObjects.ChainCachedGrows | pdfread.go:266-267 | adding cache entries never uncaches a chain |
| PdfReader.Reader.Obj | pdfread.go:277-280 | equals `ObjOf`; caches stay coherent |
| PdfReader.Reader.NumRef | pdfread.go:283-285 | equals `NumRefOf`; caches stay coherent |
| PdfReader.Reader.Dic | pdfread.go:288-295 | equals `DicOf`; a cached dictionary is returned without resolving anything; on success the reference is in the dictionary cache, and no entry is dropped |
| PdfReader.Reader.Arr | pdfread.go:298-300 | equals `ArrOf`; caches stay coherent |
| PdfReader.Reader.ForcedArray | pdfread.go:304-310 | equals `ForcedArrayOf`: the array, or the value itself as the only element |
| PdfReader.Reader.PagesDic | pdfread.go:317 | equals `PagesDicOf` |
| PdfReader.Reader.PageTree | pdfread.go:317-318 | equals `PageTreeOf` |
| PdfReader.Reader.Collect | pdfread.go:318-338 | fills `/Count` slots from the walk and equals `SlotsOf`; more leaves than slots panics |
| PdfReader.Reader.VisitRef | pdfread.go:324-334 | writes exactly the leaves of `Visit` into the buffer from the current slot on |
| PdfReader.Reader.WalkKids | pdfread.go:322-336 | writes exactly the leaves of `WalkFrom` into the buffer, in order |
| PdfReader.Reader.KidAt | pdfread.go:323-335 | one iteration of the walk loop extends the written leaves by those of one `Visit` |
| PdfReader.Reader.Pages | pdfread.go:313-339 | equals `PagesOf`; keeps the slice it built, and the invariant covers the kept slice too; the caches only grow |
| PdfReader.Reader.WalkPages | pdfread.go:317-338 | equals `PagesOf`: the page slice built from the tree when none is kept |
| PdfReader.Reader.Attribute | pdfread.go:344-358 | equals `AttributeOf` |
| PdfReader.Reader.Att | pdfread.go:362-364 | equals `AttOf`, the attribute resolved |
| PdfReader.Reader.Stream | pdfread.go:367-378 | returns `StreamOf`'s dictionary and data |
| PdfReader.Reader.ReadStream | pdfread.go:371-377 | returns `StreamAt`: nil and no data without the `stream` keyword, otherwise `/Length` bytes after one line end |
| PdfReader.Reader.DecodedStream | pdfread.go:381-421 | returns `DecodedOf`: the stream's data run through its filters |
| PdfReader.Reader.Decode | pdfread.go:383-419 | equals `DecodeOf`: the data unchanged without `/Filter`, otherwise run through the filter list |
| PdfReader.Reader.Decos | pdfread.go:385-390 | equals `DecosOf`: the `/DecodeParams` list, or one nil entry per filter |
| PdfReader.Reader.RunFilters | pdfread.go:391-418 | equals `ApplyFilters`: the filters in array order, each on the previous one's output |
| PdfReader.Reader.FilterStep | pdfread.go:392-417 | one filter step agrees with `ApplyFilters` from that filter on |
| PdfReader.Reader.Filter | pdfread.go:393-417 | equals `ApplyFilter`: dispatch on the filter name; an unknown name empties the data; the LZW decoder's panic propagates |
| PdfObjects.FilterPanics | pdfread.go:393-417 | a filter panics exactly when it is LZW and either its early-change flag does not resolve or the decoder fails |
| PdfObjects.FiltersUnfold | pdfread.go:391-418 | one filter of the loop, once its parameters are known: a panic stops the loop, otherwise the next filter runs on its output |
| PdfReader.Reader.Early | pdfread.go:397-402 | equals `EarlyOf`: true by default, and otherwise whether `/EarlyChange` resolves to 1 |
| PdfReader.Trim85 | pdfread.go:405-411 | equals `A85Trim` |
| Lzw.ResetOf | lzw/lzw.go:29-32 | width 9 and slot 257, so the next update assigns 258; the decoder invariant holds |
| Lzw.UpdateOf | lzw/lzw.go:42-60 | the slot advances by one, the width never shrinks and stays the one the new slot calls for |
| Lzw.UpdateWidth | lzw/lzw.go:42-60 | the width changes exactly when the comparison value (the slot, plus one with early change) reaches 512, 1024 or 2048 |
| Lzw.TokenOf | lzw/lzw.go:62-71 | a code other than the clear code, read strictly further on; the state is unchanged or freshly reset |
| Lzw.Decoder.constructor | lzw/lzw.go:34-40 | a new decoder is at the start state (reset, bit offset 0) |
| Lzw.Decoder.Reset | lzw/lzw.go:29-32 | the new state is `ResetOf` of the old one |
| Lzw.Decoder.Update | lzw/lzw.go:42-60 | returns whether the table had room (slot below 4095), and then moves to `UpdateOf`; otherwise nothing changes |
| Lzw.Decoder.Token | lzw/lzw.go:62-71 | returns `TokenOf`'s code and moves to its state |
| Lzw.LengthsFrom | lzw/lzw.go:98-103 | the count only grows |
| Lzw.CalculateLength | lzw/lzw.go:92-105 | equals `LengthOf`, the length pass |
| Lzw.CountCode | lzw/lzw.go:99-102 | after one code, the length pass from the new slot lengths and count equals the one from before the code |
| Lzw.Emit | lzw/lzw.go:80-84 | the copy changes no byte outside the span it writes |
| Lzw.EmitInto | lzw/lzw.go:80-84 | the in-place copy loop produces `Emit` |
| Lzw.DecodeFrom | lzw/lzw.go:79-88 | the byte count stays within the buffer, and the buffer keeps its length |
| Lzw.DecodeAt | lzw/lzw.go:80-87 | once a code is read, the byte count stays within the buffer, and the buffer keeps its length |
| Lzw.DecodeToSlice | lzw/lzw.go:73-90 | returns the byte count of `DecodeOf` and leaves its buffer in `out` |
| Lzw.PassesAgree | lzw/lzw.go:73-105 | the two passes agree: a byte pass that completes writes as many bytes as the length pass counts, and it completes whenever the buffer has a byte more than that count |
| Lzw.EmitCopies | lzw/lzw.go:80-86 | copying a slot whose span ends at or one past the write position writes the slot's bytes, its last byte being the first byte written; nothing else changes |
| Lzw.MatchesClassic | lzw/lzw.go:73-90 | the byte pass, with slots that alias the output, writes exactly the bytes of string-table LZW decoding that, like `lzw.go`, keeps the table and the pending entry across a clear code |
| Lzw.DecodeIsClassic | lzw/lzw.go:107-110 | when that string-table decoding succeeds with `x`, the length pass gives `|x|` and the byte pass on a zeroed buffer of `|x|+1` bytes writes `x` |
| Lzw.Decode | lzw/lzw.go:107-110 | succeeds exactly when the length pass does; returns exactly the counted bytes of the byte pass; equals the string-table decoding (which keeps the table across a clear code) whenever that succeeds |
| Strm.Operand | strm/strm.go:15-41 | equals `OperandOf`: the signed value of the digits and the scale |
| Strm.OperandOf | strm/strm.go:15-41 | the scale is ten to the number of bytes after the last point, 1 without a point |
| Strm.ScanScale | strm/strm.go:24-39 | the loop's scale is 10^(bytes after the last point), or 0 without a point |
| Strm.Int64 | strm/strm.go:43-50 | equals `Int64Of`; a zero divisor panics |
| Strm.Trunc | strm/strm.go:49 | Go's division: rounds toward zero for negative values |
| Strm.Int64Rescales | strm/strm.go:43-50 | at scale 10^k, the value times 10^k divided by the operand's scale, rounded toward zero |
| Strm.Int64Grows | strm/strm.go:45-49 | raising to a finer scale multiplies the value exactly |
| Strm.Int64Shrinks | strm/strm.go:49 | going to a coarser scale divides and truncates |
| Strm.Int64Example | strm/strm.go:43-50 | "12.34" at scale 1 is 12 |
| Strm.Twop | strm/strm.go:54-66 | equals `TwopOf` |
| Strm.TwopAligns | strm/strm.go:54-66 | both values are lifted exactly to the larger of the two scales |
| Strm.TwopScale | strm/strm.go:54-66 | the common scale is 10^(the larger number of places) |
| Strm.RaiseLifts | strm/strm.go:45-48 | the scale-raising loop multiplies value and scale by the same power of ten |
| Strm.Digits | strm/strm.go:78-90 | the closure's text is non-empty and starts with a digit |
| Strm.Fu | strm/strm.go:76-90 | the recursive closure writes `Digits` after what was in the buffer, or reports that the buffer ends |
| Strm.String | strm/strm.go:68-93 | equals `StringOf`: the rendering, or a panic when it exceeds the 128-byte buffer |
| Strm.ScanDigits | strm/strm.go:78-90 | reading back any tail of the rendered digits gives the value and scale they stand for |
| Strm.RoundTrip | strm/strm.go:68-93 | `operand` reads what `String` renders at scale 10^k back as the same value and scale |
| Strm.StringRoundTrip | strm/strm.go:68-93 | `operand(String(a, 10^k)) == (a, 10^k)` whenever `String` does not panic |
| Strm.StringExample | strm/strm.go:68-93 | 5 at scale 100 prints as "0.05" |
| Strm.AddExact | strm/strm.go:114-117 | the sum reads back as both values lifted to the common scale and added |
| Strm.AddOf | strm/strm.go:114-117 | `Add`: `String(ra+rb, f)` at `twop`'s common scale; `AddReads` and `AddExact` state what it reads back as |
| Strm.AddReads | strm/strm.go:114-117 | the sum reads back as the aligned values' sum at the common scale |
| Strm.SubExact | strm/strm.go:119-122 | the difference reads back as both values lifted to the common scale and subtracted |
| Strm.SubOf | strm/strm.go:119-122 | `Sub`: `String(ra-rb, f)` at `twop`'s common scale; `SubReads` and `SubExact` state what it reads back as |
| Strm.SubReads | strm/strm.go:119-122 | the difference reads back as the aligned values' difference at the common scale |
| Strm.NegOf | strm/strm.go:124-130 | `Neg`: an empty string panics (`a[0]`); a leading '-' is dropped; otherwise `String(-ra, f)` at the operand's own scale |
| Strm.NegNegates | strm/strm.go:124-130 | negating a rendered number reads back as the negated value at the same scale |
| Strm.NegDropsSign | strm/strm.go:125-127 | a negative number loses its `-` and reads back positive |
| Strm.NegMinus | strm/strm.go:125-127 | dropping the `-` of a rendered negative leaves the magnitude's digits |
| Strm.NegPrints | strm/strm.go:128-129 | a non-negative number is printed negated at the same scale |
| Strm.NegZero | strm/strm.go:124-130 | "0" negates to "0" |
| Strm.Shift | strm/strm.go:137-149 | the copy loop drops the last point seen and writes it back two bytes later; without a point the bytes come out unchanged |
| Strm.ShiftByte | strm/strm.go:138-148 | one turn of the copy loop extends the buffer to `Shift` of one more input byte |
| Strm.CopyShifted | strm/strm.go:133-149 | the copy loop fills the buffer with `Shift`'s bytes and ends with its point position |
| Strm.PadShifted | strm/strm.go:133-159 | copy plus appended zeros equals `Padded` |
| Strm.Padded | strm/strm.go:150-159 | between 2 and `|c|+2` bytes |
| Strm.StripZeros | strm/strm.go:160-162 | a suffix without a leading zero unless it is a single byte; never empty for non-empty input |
| Strm.PercentOf | strm/strm.go:132-163 | never empty, at most two bytes longer than the input, no leading zero unless the result is "0" |
| Strm.Percent | strm/strm.go:132-163 | equals `PercentOf` |
| Strm.PercentWhole | strm/strm.go:132-163 | without a point, the number times 100: two zeros appended, leading zeros stripped |
| Strm.PercentPoint | strm/strm.go:132-163 | with one point, the point moves two places right, zero-padded when fewer than two decimals follow |
| Strm.ShiftPoint | strm/strm.go:137-149 | with one point, the copy has the point two places later, or none when fewer than three decimals follow |
| Strm.PaddedPoint | strm/strm.go:150-159 | with one point, the zeros appended make up the two missing decimals |
| Type1.Decrypt | type1/type1.go:72-79 | the plain text is as long as the cipher text |
| Type1.T1Decrypt | type1/type1.go:72-79 | equals `Decrypt` |
| Type1.Next | type1/type1.go:76 | the key stays a 16-bit value |
| Type1.Key | type1/type1.go:74-77 | after at least one byte, the key is a 16-bit value |
| Type1.XorTwice | type1/type1.go:75 | xoring twice with the same key byte gives the byte back |
| Type1.DecryptAt | type1/type1.go:74-77 | plain byte i is cipher byte i xored with the high byte of the key after the first i cipher bytes |
| Type1.DecryptPrefix | type1/type1.go:72-79 | decrypting a prefix gives the prefix of the decryption |
| Type1.DecryptEncrypt | type1/type1.go:72-79 | decrypting the encryption under the same key gives the plain text back |
| Type1.EncryptDecrypt | type1/type1.go:72-79 | encrypting the decryption gives the cipher text back, so decryption is a bijection |
| Type1.EexecFirstByte | type1/type1.go:69-79 | under the eexec key 55665, the first plain byte is the first cipher byte xored with 217 |
| Type1.ZeroCount | type1/type1.go:87-97 | at most as many zeros as bytes |
| Type1.Run | type1/type1.go:87-97 | the scan stops inside the data, with the text end at or before the stop |
| Type1.LastEnd | type1/type1.go:92-94 | one past the last byte that is neither blank nor '0'; everything after it is blank or '0' |
| Type1.ScanStep | type1/type1.go:88-95 | a blank leaves the count, a '0' adds one, any other byte ends the text there and clears the count |
| Type1.RunMeetsSpec | type1/type1.go:87-97 | the loop stops at the first point where 256 zeros follow the last significant byte, or at the end; the text ends after the last significant byte before the stop |
| Type1.ScanMeetsSpec | type1/type1.go:84-97 | the scan from the start meets that statement |
| Type1.ScanUnique | type1/type1.go:87-97 | that statement fixes the text end, the stop and the count |
| Type1.ZeroRun | type1/type1.go:84-97 | the loop equals `ScanOf` |
| Type1.Eexec | type1/type1.go:81-103 | equals `EexecOf`: the decrypted section and the bytes consumed |
| Type1.EexecDrops | type1/type1.go:97-102 | panics exactly when the scanned text is empty or decodes to fewer than 4 bytes; otherwise yields the plain text after its first four bytes, where the text ends after the last significant byte |
| Type1.Find | type1/type1.go:277-282 | equals `FindOf` |
| Type1.FindTopmost | type1/type1.go:277-282 | a found definition comes from the topmost dictionary that defines the name, and every dictionary above it lacks the name |
| Type1.FindMissing | type1/type1.go:277-282 | nothing is found exactly when every dictionary from the top to index 0 is present and lacks the name |
| Type1.FindPanics | type1/type1.go:277-282 | a panic means a missing slot was reached before any dictionary defining the name |

## Left out

- **Tokenizer.** The PostScript tokenizer `ps.Token` and `ps.SkipLE` are not part of this model. The reader takes any tokenizer that meets the contract in `Lexer`. `Lexer.SkipLE` skips one `\r`, `\n` or `\r\n`.
- **File reader.** The `fancy.Reader` file and slice readers, and their seeks, are offsets into a `seq<byte>`. A seek to a negative offset, or a read past the end, is a `Panic`.
- **`xrefStart`.** The regular-expression search for `startxref` is not modelled, because the regular expression engine is outside the core. `LoadOf` takes its result as a parameter, and -1 there is the `log.Fatalln` exit, modelled as `Panic`.
- **`Load`.** Opening the file and the `PDFReader` bookkeeping fields are not modelled. `LoadOf` models the xref and trailer steps, and `Reader.constructor` models the cache setup.
- **Stream codecs.** zlib inflate, the ASCII85 decoder and the hex decoder are functions in the `Codecs` parameter. Their code is outside the core.
- **LZW in the filter dispatch.** The LZW entry of `Codecs` stands for `lzw.Decode` on a bit reader over the data, and returns `Panic` where that call panics. `Lzw.Decode` models the decoder separately; the bit reader that connects the two is outside the core.
- **`/DecodeParams`.** The key is spelled `/DecodeParams` as the code reads it. Section 7.3.8.2 of ISO 32000-1 spells it `/DecodeParms`, so standard files do not supply parameters to this reader. The model keeps the code's spelling.
- **Bit reader.** `crush.BitT` is the `Bits` parameter, `get(pos, w)` plus a size. A read past the end is taken to fail (`Panic`), because the bit reader's code is outside the core.
- Lzw.Decode: its equivalence with the string-table reference `ClassicFrom` holds in one direction only. For a code naming a slot that is not yet assigned, the byte pass copies nothing and goes on, while the reference rejects the stream. So a successful byte pass does not imply that the reference succeeds.
- Lzw.Decode: the reference is not textbook LZW. Section 7.4.4.2 of ISO 32000-1 empties the table on a clear code (256). `reset` (lzw/lzw.go:29-32) only sets the width and the next slot, and leaves `dict` alone. So, like the code, the reference keeps the slots assigned before a clear and completes the entry pending from before it with the first byte after it. A stream that uses a slot from before a clear decodes here, while textbook decoding rejects it. No lemma relates the model to textbook decoding.
- **`Mul`.** `Mul` in `strm.go` is not modelled. It depends on `math/big` rationals, which are outside the core.
- **`Int`.** `Int` in `strm.go` is not modelled separately. It is `Int64` converted to `int`, the same value on 64-bit Go.
- **Integer width.** `strm` works in `int64`, and `T1Decrypt` in Go's `int`. The model uses unbounded integers, so wrap-around on overflow is not modelled; the lines below name each member this affects.
- PdfSyntax.Num: does not model the wrap-around of Go's `int` for a run of more than 18 digits, nor that of `num(t)*20` (pdfread.go:125) and `num(m[1])*20` (pdfread.go:213) for counts near the top of `int`. Such files give Go a wrapped, possibly negative, offset or length.
- Strm.Operand: does not model `int64` overflow for more than 18 digits.
- Strm.String: does not model the overflow of `-a` for the most negative `int64`.
- Strm.Int64: does not model `int64` overflow while raising the scale.
- Type1.T1Decrypt: does not model overflow of `(r + c) * 52845` for a start key near the top of Go's `int`. Its keys are 55665 and 4330, and every later key is below 65536.
- **`Pages` cache.** `Pages` fills `pd.pages` as it walks, so after a panic Go may keep a partly filled slice. The model keeps the slice only when the walk completes, and only a completed slice counts as cached.
- Lzw.DecodeToSlice: takes the capacity of the caller's buffer to equal its length. Go bounds `out[k:r+1]` by `cap(out)`, so a slice with spare capacity does not panic there, while the model does. `Decode` allocates its buffer with equal length and capacity, so it is unaffected.
- **Concurrency.** Go allows concurrent use of a reader, whose maps are then unsynchronised. The model is sequential.
- **Type 1 scope.** The rest of `type1.go` is not modelled:
  - the PostScript interpreter and its operators;
  - `NewDic` and the font dictionary construction;
  - the hex test `hex.IsHex` and the decoder `hex.Decode`, which are parameters of `Eexec`.
- **`eexec` reader.** `eexec` takes the bytes left in the reader. The new reader position is returned as the number of bytes consumed.
- **Other code.** `PageFonts`, the `cmapi`, `graf`, `tt1` and `pdserve` packages and the test program are outside the core.
