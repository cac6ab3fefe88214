# Wellspring text batching, modelled in Dafny

Wellspring (src/Wellspring.c) lays out UTF-8 text as textured quads for a GPU.
This project models and verifies its core:

- **The UTF-8 decoder.** This is Bjoern Hoehrmann's table-driven automaton (`utf8d`, `decode`).
  It is modelled byte for byte in `Utf8Dfa`.
  `Utf8Correct` proves it against an independent definition of UTF-8 as RFC 3629 writes it (`Rfc3629`).
  The automaton accepts exactly the well-formed strings and yields their scalar values.
  It rejects exactly the strings no continuation can repair.
  REJECT is never left.
- **The packer's range table.** `Packing` models `Packer.ranges`, which `Wellspring_PackFontRanges` appends to.
  It also models the range scan of `Wellspring_Draw`, which finds the packed glyph of a codepoint.
  The scan tests every range, so the last match wins.
  Over pairwise disjoint ranges, the one range that holds the codepoint is found.
- **The text batch.** `Batching.Batch` is a class over two arrays, the vertex buffer and the index buffer.
  Its methods are `Wellspring_CreateTextBatch`, `Wellspring_StartTextBatch`, `Wellspring_Draw` and `Wellspring_GetBufferData`.
  It keeps the invariants of the source's counts and capacities.
  The arrays hold 4 vertices and 6 indices per quad, with capacities of 512·2^k and 768·2^k.
  Every index is `v, v+1, v+2, v+2, v+1, v+3` for its quad and points at a written vertex.
  A buffer grows by doubling and keeps its contents.
  `Draw` is proved to append exactly the quads of the codepoints the decoder completes, in order, all at the given depth and colour.
  It returns 0 exactly when the string contains a rejected byte, keeping what was drawn before that byte.
  `Quads` defines the specification functions: glyph selection (`Glyphs`) and placement (`Place`).

`stbtt_GetPackedQuad` is a parameter of `Draw`, because it is code this model cannot see.
It is the function `place` from glyph, atlas size and pen position to a quad and the next pen position.
`stbtt_PackFontRanges` is likewise the `PackOutcome` argument of `PackFontRanges`.
Floats are Dafny's `real`.

The code behaves as follows, and the model follows the code:

- The range scan keeps the *last* matching range, not the first.
- A string that ends inside a multi-byte sequence returns 1 and draws nothing for the unfinished character.
- A string is not rejected for that.
- A codepoint no range holds is drawn with the glyph of the codepoint before it, because the source's `rangeData` and `glyphIndex` keep their old values.

## Model

| member | source | states |
|---|---|---|
| Utf8Dfa.Decode | src/Wellspring.c:122-132 | one byte through the table: the state and accumulator are the automaton's step (class from `utf8d[byte]`, state from `utf8d[256 + state*16 + type]`, accumulator shifted on a continuation, masked by the class from ACCEPT); the state stays among the nine |
| Utf8Dfa.Entry | src/Wellspring.c:105-120 | defines entry i of `utf8d`: the source's fourteen rows laid end to end (the nine class rows, then the five transition rows) |
| Utf8Dfa.Utf8d | src/Wellspring.c:105-120 | defines the 400-entry table `utf8d` |
| Utf8Dfa.ClassTable | src/Wellspring.c:105-114 | the entry of every byte in `utf8d` is `ClassOf` of the byte, and is below 12; `ClassOf` is an independent definition that reads the classes off by byte range |
| Utf8Dfa.TransitionTable | src/Wellspring.c:115-119 | for a state below 9 and a class below 16 the transition entry `utf8d[256 + state*16 + cls]` is `NextState` of the pair; `NextState` is an independent definition, written state by state |
| Utf8Dfa.Step | src/Wellspring.c:124-130 | defines one step of the automaton on classes and states: the accumulator takes the low six bits of a continuation, or the class-masked bits of a lead byte from ACCEPT; the statements about it are `Decode`'s contract and the `Utf8Correct` lemmas |
| Utf8Dfa.ByteClass | src/Wellspring.c:105-124 | the first 256 entries of `utf8d` give each byte its class, below 12 |
| Utf8Dfa.Transition | src/Wellspring.c:115-130 | the transition entries of `utf8d`, indexed as the source does, give the next state; for states below 9 the index cannot wrap |
| Utf8Dfa.NextStateInRange | src/Wellspring.c:115-119 | no transition leaves the nine states, and REJECT goes only to REJECT |
| Utf8Dfa.Feed | src/Wellspring.c:272-283 | one byte of the draw loop's decoding: the state stays in range, and from REJECT nothing changes |
| Utf8Dfa.Run | src/Wellspring.c:272-283 | the bytes fed in order: REJECT is absorbing, and codepoints are only ever appended |
| Utf8Dfa.RunAppend | src/Wellspring.c:272-283 | running over `a + b` is running over `a` and then over `b` |
| Utf8Correct.AcceptsExactlyUtf8 | src/Wellspring.c:102-132 | from a fresh start the state is ACCEPT at the end exactly when the bytes are well-formed UTF-8 (RFC 3629, section 4), and the codepoints are then exactly its scalar values |
| Utf8Correct.RunMatchesRfc | src/Wellspring.c:102-132 | the same from any ACCEPT state, with the new codepoints appended to the old ones |
| Utf8Correct.RejectsExactlyHopeless | src/Wellspring.c:102-132 | REJECT is reached exactly on the byte strings that no continuation makes well-formed |
| Utf8Correct.CompletionAccepts | src/Wellspring.c:102-132 | every state other than REJECT can be brought back to ACCEPT by at most three more bytes |
| Utf8Correct.EmitsScalarValues | src/Wellspring.c:102-132 | every codepoint the automaton completes is a Unicode scalar value: not a surrogate, not above U+10FFFF |
| Utf8Correct.DecodeAscii | src/Wellspring.c:126-130 | an ASCII byte from ACCEPT is its own codepoint and leaves ACCEPT |
| Utf8Correct.DecodeRejectAbsorbs | src/Wellspring.c:116-130 | from REJECT every byte leads back to REJECT |
| Utf8Correct.RejectsBadFirst | src/Wellspring.c:105-130 | a single byte is rejected exactly when it is a continuation byte, C0, C1 or F5-FF |
| Utf8Correct.RejectsBadSecond | src/Wellspring.c:105-130 | overlong (E0 80-9F, F0 80-8F), surrogate (ED A0-BF) and beyond-U+10FFFF (F4 90-BF) sequences are rejected at their second byte |
| Utf8Correct.TruncatedIsPending | src/Wellspring.c:105-130 | a lone lead byte leaves the automaton neither in ACCEPT nor in REJECT, with no codepoint |
| Rfc3629.DecodeEncodeAll | src/Wellspring.c:102-132 | the reference definition the automaton is proved against: decoding the encoding of scalar values gives them back |
| Rfc3629.EncodeAllDecode | src/Wellspring.c:102-132 | a well-formed string decodes to scalar values whose encoding is the string again |
| Rfc3629.CharIsShortest | src/Wellspring.c:102-132 | every character of the grammar carries a scalar value in its shortest form |
| Packing.Wrap32 | src/Wellspring.c:290 | the `uint32_t` sum wraps around modulo 2^32 |
| Packing.Matches | src/Wellspring.c:289-290 | defines the test of the scan: `cp >= first && cp < first + charCount`, with the sum wrapping in 32 bits; `MatchesInterval` states what it means |
| Packing.Lookup | src/Wellspring.c:286-295 | the scan finds nothing exactly when no range matches; otherwise it finds a matching range with index `cp - firstCodepoint`, and no later range matches, so the last match wins |
| Packing.MatchesInterval | src/Wellspring.c:289-290 | a range matches only when `first + charCount` does not wrap, and then exactly for first <= cp < first + charCount, with a glyph index below `charCount` |
| Packing.DisjointMatchIsUnique | src/Wellspring.c:286-295 | over pairwise disjoint ranges at most one range matches a codepoint |
| Packing.DisjointLookup | src/Wellspring.c:286-295 | over pairwise disjoint ranges the scan finds the range that holds the codepoint, with index `cp - first` below its `charCount` |
| Packing.NewRanges | src/Wellspring.c:206-212 | one range per request, in order, with the request's first codepoint and count and the packed data |
| Packing.Packer.constructor | src/Wellspring.c:157-163 | a new packer has the given atlas size and no ranges |
| Packing.Packer.PackFontRanges | src/Wellspring.c:170-217 | on failure it returns 0 with the table unchanged; on success it returns 1 and the table is the old one followed by one new range per request; the atlas size is unchanged |
| Packing.Packer.FindGlyph | src/Wellspring.c:286-295 | the scan loop computes `Lookup` of the codepoint over the table |
| Packing.PackCopyAsWritten | src/Wellspring.c:203-214 | defines the success path as written: the table reallocated to `oldCount + added`, range i written to slot `rangeCount + i` with the count already increased, and the count increased a second time |
| Packing.PackAsWrittenOverruns | src/Wellspring.c:203-214 | as written, every slot the copy loop writes lies at or past the end of the reallocated table, the slots where the new ranges belong are never written, and the count left exceeds the table's length by the number of requests |
| Quads.QuadVertices | src/Wellspring.c:325-363 | four vertices, all at the given depth and colour; vertices 0 and 1 take x0/s0, 2 and 3 take x1/s1; vertices 0 and 2 take y0/t0, 1 and 3 take y1/t1 |
| Quads.QuadIndices | src/Wellspring.c:365-370 | six indices, `v, v+1, v+2, v+2, v+1, v+3` |
| Quads.TrianglesSplitQuad | src/Wellspring.c:325-370 | the two triangles share the diagonal between vertices 1 and 2, use all four vertices, and have the same signed area, minus the rectangle's width times height |
| Quads.IndexRun | src/Wellspring.c:365-373 | the indices of n quads drawn one after another number 6n |
| Quads.IndexRunAt | src/Wellspring.c:365-373 | index 6k + j of the run is `base + 4k + [0,1,2,2,1,3][j]` |
| Quads.IndexRunBounds | src/Wellspring.c:365-373 | every index of n quads from `base` lies in [base, base + 4n) |
| Quads.IndexRunAppend | src/Wellspring.c:365-373 | the runs of m quads and then n quads together are the run of m + n quads |
| Quads.SelectGlyph | src/Wellspring.c:264-295 | defines the glyph the scan leaves: the last matching range's data and index `cp - first`, or, when no range matches, whatever the previous codepoint left; `GlyphOfCodepoint` and `DisjointGlyph` state what it means for a string |
| Quads.Glyphs | src/Wellspring.c:284-301 | one glyph per codepoint drawn |
| Quads.GlyphsSnoc | src/Wellspring.c:284-301 | one codepoint more selects one glyph more, after the others |
| Quads.GlyphsPrefix | src/Wellspring.c:284-301 | the glyphs of a prefix of the codepoints are the prefix of their glyphs |
| Quads.GlyphAt | src/Wellspring.c:284-301 | the k-th glyph is what the selection gives for the k-th codepoint, given the glyph before it |
| Quads.GlyphOfCodepoint | src/Wellspring.c:284-301 | the k-th codepoint is drawn with the last matching range's data at index `cp - firstCodepoint`; a codepoint no range holds is drawn with the glyph of the one before it, which exists |
| Quads.DisjointGlyph | src/Wellspring.c:284-301 | over disjoint ranges a codepoint is drawn with the glyph of the range that holds it |
| Quads.Place | src/Wellspring.c:297-373 | placing n glyphs gives 4n vertices and 6n indices; `Place` folds `PlaceGlyph` over the glyphs, and `PlaceGlyph` calls the quad oracle at the current pen and appends that quad's vertices and indices |
| Quads.PlaceSnoc | src/Wellspring.c:297-373 | one glyph more places one quad more, from the pen the others left |
| Quads.PlaceAppend | src/Wellspring.c:297-373 | appending the next glyph's quad after buffers that hold the first glyphs' quads gives the buffers of one glyph more |
| Quads.PlaceDepthColor | src/Wellspring.c:325-363 | every vertex placed has the draw's depth and colour |
| Quads.PlaceIndices | src/Wellspring.c:365-373 | the indices placed are exactly the index run of the quads, numbered from the first new vertex |
| Quads.PlacePrefix | src/Wellspring.c:297-373 | the quads of the first k glyphs are the first 4k vertices and 6k indices |
| Quads.QuadOfGlyph | src/Wellspring.c:297-363 | the k-th quad is the oracle's quad for the k-th glyph at the pen the glyphs before it left |
| Batching.DecodeByte | src/Wellspring.c:274 | the decoder call of the draw loop performs one step of the automaton |
| Batching.ScanStep | src/Wellspring.c:274-283 | one byte of the draw loop adds one codepoint exactly when the decoder returns to ACCEPT |
| Batching.ScanPrefix | src/Wellspring.c:272-283 | the codepoints of a prefix come first among those of the whole string, and a prefix ending in REJECT decides the whole string |
| Batching.ScanNext | src/Wellspring.c:274-283 | after one more byte, a rejection ends the scan of the whole string with the codepoints so far; otherwise the scan stands one byte further, with one codepoint more exactly in ACCEPT |
| Batching.CodepointsAtMostBytes | src/Wellspring.c:272-283 | the decoder completes at most one codepoint per byte of the string |
| Batching.FinalScan | src/Wellspring.c:272-376 | at the end of the string, not rejected, the codepoints are all those of the string |
| Batching.SelectNext | src/Wellspring.c:284-295 | the glyph variables after a codepoint are those of the glyph selection for one codepoint more |
| Batching.Batch.constructor | src/Wellspring.c:226-239 | a new batch is empty, with capacities 512 vertices and 768 indices |
| Batching.Batch.Start | src/Wellspring.c:241-249 | the batch is emptied and draws with the new packer; buffers and capacities are kept |
| Batching.Batch.CountsAgree | src/Wellspring.c:226-373 | counts are within capacities; counts are multiples of 4 and 6 and agree on the quad count; capacities are 512·2^k and 768·2^k for one k; every index points at a written vertex |
| Batching.Batch.GrowVertices | src/Wellspring.c:308-312 | the vertex buffer doubles and keeps its old vertices |
| Batching.Batch.GrowIndices | src/Wellspring.c:314-318 | the index buffer doubles and keeps its old indices |
| Batching.Batch.Reserve | src/Wellspring.c:308-318 | each buffer doubles exactly when its count has reached its capacity and is otherwise left alone; afterwards there is room for one more quad, and the contents are unchanged |
| Batching.Batch.AppendQuad | src/Wellspring.c:308-373 | the quad's four vertices and six indices go after the ones already there; each capacity doubles exactly when its buffer was full |
| Batching.Batch.WriteQuad | src/Wellspring.c:322-373 | into buffers with room, the quad's vertices and indices go after the ones already there, and the buffers and capacities are kept |
| Batching.PutVertices | src/Wellspring.c:322-363 | the four vertex writes put the quad's vertices at the vertex count |
| Batching.PutIndices | src/Wellspring.c:365-370 | the six index writes put the quad's indices at the index count |
| Batching.Batch.DrawCodepoint | src/Wellspring.c:284-373 | one decoded codepoint selects the glyph of the glyph selection and appends its placed quad |
| Batching.Batch.DrawAccepted | src/Wellspring.c:284-373 | the glyph variables and the buffers move on by one codepoint of the specification |
| Batching.Batch.DrawStep | src/Wellspring.c:272-374 | one pass of the byte loop keeps the loop's invariant; a rejection decides the whole string |
| Batching.Batch.DrawLoop | src/Wellspring.c:272-376 | the loop returns 0 exactly for strings the decoder rejects and leaves the buffers holding the quads of the codepoints completed; the buffer arrays are the old ones or freshly grown ones |
| Batching.Batch.Draw | src/Wellspring.c:251-377 | returns 0 exactly when the decoder rejects the string, else 1; the buffers gain exactly the placed quads of `Codepoints(str)`, numbered from the old vertex count; `Codepoints(str)` is the decoder's codepoints completed before the end or the rejection; the index count grows by six per codepoint, so by at most six per byte; the buffer arrays are the old ones or freshly grown ones, so a caller can draw again; the batch stays valid |
| Batching.Batch.GetBufferData | src/Wellspring.c:379-391 | the two buffers, with 32-bit byte lengths `count * 24` and `count * 4`; when these do not wrap they divide back to the counts and the vertex length is four times the index length |
| DrawAsWritten.StepAsWritten | src/Wellspring.c:272-295 | defines one pass of the byte loop as written: returns 1 at the end of the string and 0 on REJECT, moves to the next byte inside a sequence, and after a completed codepoint resumes at `rangeCount + 1`, where the range scan leaves the shared counter |
| DrawAsWritten.RunAsWritten | src/Wellspring.c:272-295 | defines n passes of the byte loop as written; a loop that has returned stays returned |
| DrawAsWritten.RepeatsThirdByte | src/Wellspring.c:272-295 | as written, with one range, the third byte of "AAA" sends the loop back to itself and draws one more quad per pass |
| DrawAsWritten.DrawAsWrittenNeverReturns | src/Wellspring.c:272-295 | as written, drawing "AAA" with one range never returns, and each pass draws another quad |
| DrawAsWritten.DrawAsWrittenSkipsByte | src/Wellspring.c:272-295 | as written, drawing "AB" with one range returns 1 after drawing only 'A', though the string has two codepoints |

## Left out

- Batching.Batch.Draw: requires that the first codepoint of the string is held by some range. For that input the source reads the uninitialised `rangeData` and `glyphIndex`, which is undefined behaviour.
- Batching.Batch.Draw: requires `indexCount + 6·|str| < 2^32`. Wrap-around of the 32-bit counts and capacities is not modelled, and neither is `vertexCapacity *= 2` overflowing.
- Batching.Batch.Draw: does not model the pen update by `stbtt_GetPackedQuad`. That function and its float arithmetic are the `place` parameter, and floats are reals.
- Packing.Packer.PackFontRanges: the arguments built for `stbtt_PackFontRanges` are not modelled: font size, oversampling, the `malloc` of packed-char arrays and their release on failure. The packer is an oracle (`PackOutcome`).
- Packing.Packer.PackFontRanges: `rangeCount` is a `nat`. Its 32-bit wrap-around is not modelled.
- `Wellspring_CreatePacker` is modelled only as far as the range table and atlas size go. The font bytes, the pixel buffer and `stbtt_PackBegin` are not.
- `Wellspring_GetPixelDataPointer` and `Wellspring_LinkedVersion` are not modelled: they return a pointer or a constant.
- `Wellspring_DestroyTextBatch` and `Wellspring_DestroyPacker` are not modelled, because memory release is outside the model. `Wellspring_DestroyTextBatch` frees the two buffers and the batch. `Wellspring_DestroyPacker` frees the packed-char data of every range below `rangeCount`, then the table and the packer. With the doubled `rangeCount` of the second Findings row, it also reads past the end of the table.
- Failure of `malloc` and `realloc` is not modelled: allocation always succeeds.
- `firstCodepoint` is stored as `int32_t` in the source. In the model it is the `uint32_t` value the comparison and subtraction convert it to.
- Packing.Lookup: the glyph index is a `uint32_t`-range value (`Match.glyph`). The source stores it in the `int32_t` `glyphIndex`, so an index of 2^31 or more, possible only with `charCount` above 2^31, would be negative there. That conversion is not modelled.
- The `rangeData` pointer is the opaque handle `PackedChars`. The buffers hold `Vertex` values rather than raw bytes.
- Update in place of the range table is modelled as reassigning a `seq` field, so aliasing of the table's storage is not captured.
- stb_truetype itself (include/ and the `stbtt_*` functions) is not part of this model.

## Findings

| source | as written | input that shows it | evidently intended | confidence | as-written member | corrected member |
|---|---|---|---|---|---|---|
| src/Wellspring.c:272-295 | the range scan reuses the byte loop's counter `i`, so after each codepoint the byte loop resumes at `rangeCount + 1` | "AAA" with one range never returns, drawing quads without end; "AB" with one range draws only 'A' | the range scan has its own index and the byte loop visits every byte | high (not executed) | DrawAsWritten.DrawAsWrittenNeverReturns | Batching.Batch.Draw |
| src/Wellspring.c:203-214 | `rangeCount` is increased by `numRanges` before the reallocation and again after the copy loop; the copy writes `ranges[rangeCount + i]` with the already-increased count | any successful pack: every write is past the end of the reallocated table, and the count exceeds the number of ranges | the new ranges are written after the old ones and the count grows once | high (not executed) | Packing.PackAsWrittenOverruns | Packing.Packer.PackFontRanges |
