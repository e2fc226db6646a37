# Unitex UTF-8 codec and fst2 automaton model

A Dafny model of two parts of the Unitex linguistic engine:

- the UTF-8 codec of `base/unicode/utf8.cpp`: the encoder `u_encode_utf8`,
  the table-driven decoder `u_decode_utf8` and their tables
  (`kUTF8ByteInfo`, `kUTF8ByteInfoIndex`, `kUTF8ReplacementChar`,
  `U_MAX_WIDTH_UTF8`, `u_has_valid_utf8_width`);
- the data model of a `.fst2` automaton declared in `Fst2.h`: tags, states,
  transitions, the variable list and the automaton, with the invariants
  the header documents gathered in the predicate `Fst2Model.Valid`, the
  absolute state numbering across sub-graphs, and the
  `is_initial_state` / `is_final_state` tests on the control byte.

Files: `wrappers.dfy` (Option, Result), `utf8_tables.dfy`,
`utf8_encode.dfy`, `utf8_decode.dfy`, `utf8_properties.dfy`, `fst2.dfy`,
`fst2_addressing.dfy`, `fst2_variables.dfy`, `fst2_marking.dfy`,
`fst2_filters.dfy`.

Modelling choices:

- A NUL-terminated string is modelled by its content. This is the sequence
  before the terminator, and none of its elements is 0. The methods
  require this; the decoder functions are defined on any byte sequence, and
  in `Utf8Decode.DecodeUtf8` the sequence `rest` is the string from the
  iterator on. Bytes are integers
  0..255, and code units are unbounded naturals, because the width of
  `unichar` is defined in a header that is not part of this model.
- The bitwise ORs of the encoder join disjoint bit fields, so they appear
  as additions. `x & 0x3F` appears as `x % 64`, and `x & mask` appears as
  `x % (mask + 1)`, since every mask the decoder uses has the form 2^k - 1.
  The result is the same for a signed `char`, because only low bits are kept.
- `u_replace_if_invalid` is not part of this model. The decoders return the
  values handed to it. `Utf8Decode.DecodeUtf8` takes it as a parameter
  `replace` and stores `replace(value)`. `U_REPLACEMENT_CHAR` is 0xFFFD, as
  the comment at utf8.cpp:177 says.
- The decoder as written (`Utf8Decode.DecodeAsWritten`) reports an
  `OverRead` error when the jump over an invalid or 4-byte lead lands past
  the terminator. The C code would keep reading memory that does not belong
  to the string. `Utf8Decode.Decode` is the corrected decoder (see
  Findings).
- Each linked list (transitions, variables) becomes a sequence in list
  order. Each nullable string becomes `Option<string>`. `output` is a
  plain `string`. Control bytes are `bv8`.
- The field `lemma` of `fst2Tag` is named `lemmaText`, because `lemma` is
  a keyword.
- `number`, the nature of a tag, is the datatype `TagNature`. Its numeric
  codes live in LocateConstants.h, which is not part of this model. Only
  the two variable-declaration natures are distinguished.
- Sub-graphs are numbered from 0. Entry `g` of `initialStates`,
  `graphNames` and `numberOfStatesPerGraphs` describes sub-graph `g`.

## Model

| member | source | states |
|---|---|---|
| `Utf8Tables.HasValidUtf8Width` | base/unicode/utf8.cpp:47-52 | `u_has_valid_utf8_width`: a width is decodable when it is 1 to `U_MAX_WIDTH_UTF8` = 3 (a definition, no contract) |
| `Utf8Tables.AndLowMask` | base/unicode/utf8.cpp:182 | `*it & mask` for the masks 2^k - 1 of the table, written as `x % (mask + 1)`: the low k bits of the byte (a definition; its contract says only that the result never exceeds the mask) |
| `Utf8Tables.LeadIndex` | base/unicode/utf8.cpp:90-106 | the class of a lead byte, by ranges: it is a row of the 10-row info table, and it is 0 (invalid) exactly for 80..C1 and F5..FF |
| `Utf8Tables.IndexTableLines` | base/unicode/utf8.cpp:90-106 | every one of the 256 entries of the source's index table is the class `LeadIndex` gives that byte: 00..7F are class 1; C2..DF are class 2; E0, E1..EC, ED and EE..EF are classes 3, 4, 5 and 6; F0, F1..F3 and F4 are classes 7, 8 and 9 |
| `Utf8Tables.LeadWidth` | base/unicode/utf8.cpp:57-85 | the width a lead byte announces: 0 for invalid leads, 1 for ASCII, 2 for C2..DF, 3 for E0..EF, 4 for F0..F4 |
| `Utf8Tables.LeadMask` | base/unicode/utf8.cpp:74-81 | the mask applied to a lead byte is 0x7f, 0x1f or 0x0f for widths 1, 2 and 3 |
| `Utf8Encode.EncodeUnit` | base/unicode/utf8.cpp:124-153 | a unit ≤ 0x7F is its own byte. Units ≤ 0x7FF take 2 bytes with a lead in C2..DF, units ≤ 0xFFFF take 3 bytes with a lead in E0..EF (surrogates included), units ≤ 0x10FFFF take 4 bytes with a lead in F0..F4, and in each case the lead's payload followed by the six-bit payloads of the other bytes rebuilds the unit. Any larger unit gives exactly EF BF BD. Every byte after the lead is in 80..BF |
| `Utf8Encode.Continuation` | base/unicode/utf8.cpp:130-146 | `0x80 \| ((c >> 6k) & 0x3F)`, written as `0x80 + (c / 64^k) % 64` (a definition; its contract says the byte is always in 80..BF, and `EncodeUnit`'s contract pins the payloads) |
| `Utf8Encode.Encode` | base/unicode/utf8.cpp:121-156 | the bytes the loop writes before the terminator: each unit's bytes in order (a definition; `EncodeLength`, `EncodeAppend` and `EncodeUtf8` state its properties) |
| `Utf8Encode.EncodeLength` | base/unicode/utf8.cpp:121-156 | each unit occupies between one and four bytes of output |
| `Utf8Encode.EncodeAppend` | base/unicode/utf8.cpp:121-156 | encoding is compositional: the bytes of s1+s2 are the bytes of s1 followed by those of s2 |
| `Utf8Encode.EncodeUnitNonZero` | base/unicode/utf8.cpp:124-153 | a unit other than 0 produces no zero byte |
| `Utf8Encode.EncodeNonZero` | base/unicode/utf8.cpp:121-159 | the encoding of a NUL-free string contains no zero byte, so the written terminator is the first 0 |
| `Utf8Encode.EncodeUnitLeadWidth` | base/unicode/utf8.cpp:77-81 | every lead byte the encoder emits is indexed under a class whose width is the number of bytes emitted; 2-byte leads map to class 2, never to the invalid C0/C1 |
| `Utf8Encode.EncodeUtf8` | base/unicode/utf8.cpp:116-163 | the returned count equals the number of bytes written, those bytes are the encoding of the source, and a 0 terminator follows them |
| `Utf8Decode.EncodedOffset` | base/unicode/utf8.cpp:174-176 | `encoded_width - 1u` stored in a uint8_t: width - 1 for widths 1..4, and 255 for the invalid width 0 |
| `Utf8Decode.ContinuationBits` | base/unicode/utf8.cpp:186 | `b & 0x3F`, written as `b % 64`: the payload of a following byte, never range-checked (a definition; its contract bounds it below 64) |
| `Utf8Decode.ShiftIn` | base/unicode/utf8.cpp:185-187 | `value = (value << 6) \| (b & 0x3F)` for each continuation byte in turn (a definition; `ShiftInOne`, `ShiftInTwo` and `ShiftInBound` state its properties) |
| `Utf8Decode.LeadValue` | base/unicode/utf8.cpp:180-187 | the lead byte masked with its class's mask, then k continuation bytes shifted in (a definition; `LeadValueBound` states its bound) |
| `Utf8Decode.ShiftInOne` | base/unicode/utf8.cpp:185-187 | proof helper: `ShiftIn` over one byte unfolded to value·64 + (b & 0x3F) |
| `Utf8Decode.ShiftInTwo` | base/unicode/utf8.cpp:185-187 | proof helper: `ShiftIn` over two bytes unfolded to (value·64 + (b0 & 0x3F))·64 + (b1 & 0x3F) |
| `Utf8Decode.ShiftInBound` | base/unicode/utf8.cpp:185-187 | shifting in n continuation payloads multiplies a bound on the value by 64^n; `LeadValueOne` and `LeadValueTwo` are its cases n = 1 and n = 2 |
| `Utf8Decode.LeadValueBound` | base/unicode/utf8.cpp:180-187 | on the width 1..3 path the decoded value is below 0x10000 |
| `Utf8Decode.LeadValueOne` | base/unicode/utf8.cpp:180-187 | a width 2 or 3 lead with one continuation byte read gives a value below 0x800 |
| `Utf8Decode.LeadValueTwo` | base/unicode/utf8.cpp:180-187 | a width 3 lead with two continuation bytes read gives a value below 0x10000 |
| `Utf8Decode.DecodeStepAsWritten` | base/unicode/utf8.cpp:170-196 | one loop iteration. For widths 1..3 it consumes at least 1 byte, at most the width, and never more than remain before the terminator; the value is < 0x10000. For width 0 it jumps 256 bytes, and for width 4 it jumps 4 bytes; in both cases the value is the replacement character, or the step is an overrun when fewer bytes remain |
| `Utf8Decode.DecodeAsWritten` | base/unicode/utf8.cpp:165-204 | a successful decode has at most one value per input byte. A failure is a 4- or 256-byte jump from a lead with fewer bytes left before the terminator |
| `Utf8Decode.DecodeAsWrittenBelow` | base/unicode/utf8.cpp:170-197 | every value of a successful decode is below 0x10000 |
| `Utf8Decode.ApplyReplace` | base/unicode/utf8.cpp:192-193 | `u_replace_if_invalid` is applied once per decoded value: the stored units are as many as the values |
| `Utf8Decode.ApplyReplaceAt` | base/unicode/utf8.cpp:192-193 | the unit stored at position i is `replace` of the i-th decoded value |
| `Utf8Decode.DecodeLoopStep` | base/unicode/utf8.cpp:170-197 | one iteration of the loop from the iterator's position keeps the whole decode equal to the values written so far followed by the decode of what remains |
| `Utf8Decode.DecodeLoopOverrun` | base/unicode/utf8.cpp:188-189 | a jump past the terminator from the iterator's position is the error of the whole decode |
| `Utf8Decode.DecodeUtf8` | base/unicode/utf8.cpp:165-204 | the destination is `replace` applied to each decoded value, followed by a terminator at the returned count, which is the number of values. An over-read ends the call with that error |
| `Utf8Decode.DecodeAsWrittenUnfold` | base/unicode/utf8.cpp:170-197 | a decode is one loop iteration followed by the decode of the rest |
| `Utf8Decode.DecodeStep` | base/unicode/utf8.cpp:172-190 | corrected step: it always yields a value < 0x10000 and consumes 1 to 4 bytes, never past the terminator. An invalid lead consumes only itself. It agrees with the source for widths 1..3 and for complete 4-byte sequences |
| `Utf8Decode.Decode` | base/unicode/utf8.cpp:165-204 | corrected decoder: it never fails, and it yields between |s|/4 and |s| values, each < 0x10000 |
| `Utf8Decode.AsWrittenAgreesOnDecodableLeads` | base/unicode/utf8.cpp:180-190 | when every step meets a lead of width 1..3, the source and the corrected decoder give the same values |
| `Utf8Properties.StepOnTwoByteUnit` | base/unicode/utf8.cpp:128-131 | decoding the two bytes of a unit in 0x80..0x7FF gives back the unit |
| `Utf8Properties.StepOnThreeByteUnit` | base/unicode/utf8.cpp:136-140 | decoding the three bytes of a unit in 0x800..0xFFFF gives back the unit, surrogates included |
| `Utf8Properties.StepOnEncodedUnit` | base/unicode/utf8.cpp:124-140 | for every unit in 1..0xFFFF, one decoding step over its bytes yields the unit and consumes exactly its bytes, whatever follows |
| `Utf8Properties.DecodeEncodedUnit` | base/unicode/utf8.cpp:170-197 | the bytes of a unit followed by any string decode to the unit followed by the decoding of that string |
| `Utf8Properties.RoundTrip` | base/unicode/utf8.cpp:116-204 | for every string of units in 1..0xFFFF, decoding its encoding gives back exactly that string as the values passed to `u_replace_if_invalid`. This holds for the source and for the corrected decoder |
| `Utf8Properties.DecodeAscii` | base/unicode/utf8.cpp:180-182 | ASCII text decodes to itself |
| `Utf8Properties.InvalidLeadOverRead` | base/unicode/utf8.cpp:176-189 | the lone byte 80 makes the source jump 256 bytes from a one-byte string; the corrected decoder yields one replacement character |
| `Utf8Properties.InvalidLeadKeepsTail` | base/unicode/utf8.cpp:176-189 | for a NUL-free string of C0 and 256 more bytes, the source decodes only the last byte after one replacement character, while the corrected decoder resumes right after C0 |
| `Utf8Properties.InvalidLeadSwallowsText` | base/unicode/utf8.cpp:103-106 | C0 followed by 255 'A' and a 'B' decodes, in the source, to a replacement character and 'B': the 255 letters are lost. The corrected decoder keeps them |
| `Utf8Properties.TruncatedFourByteOverRead` | base/unicode/utf8.cpp:188-189 | the truncated 4-byte sequence F0 9F makes the source jump 4 bytes from a two-byte string; the corrected decoder yields one replacement character |
| `Utf8Properties.TruncatedSequenceStopsAtTerminator` | base/unicode/utf8.cpp:185-187 | the truncated 3-byte sequence E4 B8 stops at the terminator and yields (4 << 6) \| 0x38 |
| `Utf8Properties.DecodeThreeBytes` | base/unicode/utf8.cpp:180-187 | a width 3 lead and two non-zero bytes decode to ((b0 & 0x0F) << 12) \| ((b1 & 0x3F) << 6) \| (b2 & 0x3F), whether or not the two bytes are in the continuation range |
| `Utf8Properties.ContinuationRangesUnchecked` | base/unicode/utf8.cpp:78-80 | continuation bytes are only masked: the overlong E0 80 80 decodes to 0 and ED A0 80 decodes to the surrogate 0xD800 |
| `Fst2Model.IsInitialState` | Fst2.h:146-151 | `is_initial_state` (declared at Fst2.h:260): bit 0 of the control byte is set. Which of the two reserved low bits means initial is an assumption; the header only reserves both |
| `Fst2Model.IsFinalState` | Fst2.h:146-151 | `is_final_state` (declared at Fst2.h:261): bit 1 of the control byte is set, under the same assumption |
| `Fst2Model.GraphOffset` | Fst2.h:166-173 | the absolute number of the first state of sub-graph g: the state counts of all earlier sub-graphs added up (a definition; `OffsetMonotone` and `OffsetBounds` state its properties) |
| `Fst2Model.ValidTag` | Fst2.h:57-136 | the per-tag invariants. From the header: the cached count equals the length of `matching_tokens` (line 110); a tag without a filter has filter number -1, and a filter number is -1 or a compiled number (lines 130-136); a declaration's input is just the variable name, so non-empty (lines 65-66). Inferred from the header's examples rather than stated by it: an inflected form appears only with a lemma (lines 78-89); a declaration has no inflected form, lemma, codes or filter; a tag with a filter has a non-empty input, which is weaker than the `"<TOKEN>"` default of lines 62-63 (a definition, used by `Valid`) |
| `Fst2Model.ValidVariable` | Fst2.h:193-199 | a variable's start and end are positions or the -1 sentinel for an undefined position (a definition, used by `Valid`) |
| `Fst2Model.DeclaredNames` | Fst2.h:238-240 | the reference set of names the `$a(` and `$a)` declaration tags introduce, from which the variable list is initialised (a definition; `DeclaredVariables` and `Valid` are stated against it) |
| `Fst2Model.Valid` | Fst2.h:212-240 | the invariants of a loaded fst2: counts match the arrays; sizes are within the limits; each sub-graph's initial state lies in its own range and has the initial bit set; transitions name existing tags and states; every tag is valid; the variable names are exactly the declared ones (a definition; `ValidTagFacts`, `TransitionTargetLocated` and `InitialStateLocated` state what follows from it) |
| `Fst2Model.StatusIsLowTwoBits` | Fst2.h:146-151 | initial and final status depend only on the two lowest bits of a state's control byte |
| `Fst2Model.MarkingKeepsStatus` | Fst2.h:146-151 | setting any bits above the two lowest leaves is_initial_state and is_final_state unchanged |
| `Fst2Model.ValidTagFacts` | Fst2.h:33-37 | in a valid fst2: the matching-token count is the list's length; a tag without a filter has filter number -1; tags ≤ 100000 and states ≤ 500000; a declaration's input is a non-empty name held by the variable list |
| `Fst2Addressing.OffsetMonotone` | Fst2.h:235-236 | sub-graph offsets never decrease with the graph index |
| `Fst2Addressing.OffsetBounds` | Fst2.h:235-236 | the first sub-graph starts at state 0 and the offsets end at number_of_states |
| `Fst2Addressing.GlobalState` | Fst2.h:166-173 | local state i of sub-graph g is an absolute state number inside g's range [offset_g, offset_{g+1}) and below number_of_states |
| `Fst2Addressing.GlobalStateInjective` | Fst2.h:166-173 | two (sub-graph, local index) pairs have the same absolute number if and only if they are equal |
| `Fst2Addressing.LocateFrom` | Fst2.h:166-173 | searching from sub-graph g onward finds the sub-graph and local index whose absolute number is n |
| `Fst2Addressing.LocateState` | Fst2.h:166-173 | every absolute state number belongs to a sub-graph and a local index that map back to it |
| `Fst2Addressing.LocateGlobalState` | Fst2.h:166-173 | locating the absolute number of local state i of sub-graph g gives back (g, i) |
| `Fst2Addressing.TransitionTargetLocated` | Fst2.h:163-173 | in a valid fst2 every transition target is an existing state of some sub-graph |
| `Fst2Addressing.InitialStateLocated` | Fst2.h:225-226 | in a valid fst2 each sub-graph's initial state is a state of that same sub-graph, and is_initial_state holds for it |
| `Fst2Addressing.TwoGraphExample` | Fst2.h:166-173 | with sub-graphs of 3 and 5 states the second starts at state 3, and state 6 is its local state 3 |
| `Fst2Variables.DeclaredVariables` | Fst2.h:238-240 | the list built from the tags names exactly the declared variables, once each, with start and end at -1 |
| `Fst2Variables.GetVariable` | Fst2.h:259 | the result is the first list entry with the name, and is absent exactly when no entry has it |
| `Fst2Variables.GetVariableUnique` | Fst2.h:259 | with distinct names, the entry found is the one entry with that name |
| `Fst2Variables.DeclaredVariablesValid` | Fst2.h:238-240 | installing the list built from the tags keeps a valid fst2 valid |
| `Fst2Variables.DeclarationHasVariable` | Fst2.h:65-66 | in a valid fst2 every declaration tag's name is found in the variable list |
| `Fst2Variables.DeclarationExample` | Fst2.h:193-199 | the tags of "$a(" and "$a)" declare the single variable "a" with both positions -1 |
| `Fst2Marking.MarkState` | Fst2.h:146-151 | marking a state sets the given bits and keeps every other bit of its control byte. Initial and final status, transitions, the other states and every other field stay the same |
| `Fst2Marking.UnmarkState` | Fst2.h:146-151 | unmarking clears the given bits and keeps every other bit of the control byte, so initial and final status, transitions and the other states are kept |
| `Fst2Marking.ControlChangeKeepsValid` | Fst2.h:146-151 | changing only control bytes, with the same number of states, the same transitions and the same initial status for every state, keeps a valid fst2 valid |
| `Fst2Marking.MarkStateKeepsValid` | Fst2.h:146-151 | marking a state keeps a valid fst2 valid |
| `Fst2Marking.UnmarkStateKeepsValid` | Fst2.h:146-151 | unmarking a state keeps a valid fst2 valid |
| `Fst2Marking.UnmarkUndoesMark` | Fst2.h:146-151 | unmarking undoes a marking of bits that were clear |
| `Fst2Filters.KeepsFiltersApart` | Fst2.h:128-136 | the filter compiler's numbering is global: two different filters never share a number (a definition, required by `NumberFilters`) |
| `Fst2Filters.NumberFilters` | Fst2.h:128-136 | only filter numbers change. A tag's number is -1 exactly when it has no filter, and two tags with filters share a number if and only if their filters are identical; tag validity is kept |
| `Fst2Filters.NumberFiltersValid` | Fst2.h:128-136 | numbering the filters with a global numbering keeps a valid fst2 valid |
| `Fst2Filters.SharedFilterExample` | Fst2.h:129-134 | "<A><<^in>>" and "<N><<^in>>/NOUN" form a valid fst2 before and after numbering, and they share one filter number |

## Left out

- `u_strnicmp` and `u_stricmp` (utf8.cpp:206-309) are not modelled. They depend on case-folding tables and character information from headers that are not part of this model.
- `u_replace_if_invalid` is a parameter, and the definition of `U_REPLACEMENT_CHAR` is not part of this model. Its value, 0xFFFD, is taken from the comment at utf8.cpp:177.
- The width of `unichar` is not modelled: code units are unbounded naturals. The decoder's values are proved to fit in 16 bits, so no truncation is needed.
- The encoder reads no further than the terminator and needs no over-read model. For the decoder, what happens after a jump past the terminator is undefined in C, so the model stops with an `OverRead` error.
- `load_fst2`, `load_one_sentence_from_fst2`, `free_Fst2`, `write_fst2_graph`, `write_fst2_tags`, `new_Fst2Transition` and `free_Fst2Transition` (Fst2.h:245-257) are not modelled. Only their declarations exist, and they do file I/O and memory management. No tag-text parser and no file format is modelled.
- `Fst2Variables.GetVariable`: the body of `get_variable` is not part of this model. The function is modelled as a first-match search by name.
- `Fst2Variables.DeclaredVariables`: the order of the variable list is not documented. The model uses order of first declaration, and its contract speaks only of the set of names.
- `Fst2Model.Valid` does not constrain `compound_pattern`, the contents of `matching_tokens` or the tag `control` bits. The header gives no invariant for them, and the token alphabet they are computed from is external.
- `Fst2Filters.NumberFilters`: the filter compiler is external, so its numbering is a parameter, required only to give different filters different numbers.
- Text fields (`unichar*` tag parts, graph names, variable names) are Dafny `string`s, whose `char` excludes the surrogates 0xD800..0xDFFF. A fst2 text containing a lone surrogate unit is therefore not representable, although the codec itself handles such units as plain naturals.

## Findings

| source | as written | input that shows it | evidently intended | confidence | as-written member | corrected member |
|---|---|---|---|---|---|---|
| base/unicode/utf8.cpp:176-189 | for an invalid lead (class 0, width 0), `encoded_offset = encoded_width - 1u` wraps to 255 in a `uint8_t`, and the decoder jumps 256 bytes without looking for the terminator | the string 80 (jumps past the terminator); C0 + 255 × 'A' + 'B' (loses 255 letters) | an invalid lead yields the replacement character and consumes only itself | high, not executed | `Utf8Properties.InvalidLeadOverRead`, `Utf8Properties.InvalidLeadSwallowsText` (model `Utf8Decode.DecodeAsWritten`, with the wrap in `Utf8Decode.EncodedOffset`) | `Utf8Decode.Decode` (`Utf8Decode.DecodeStep`) |
| base/unicode/utf8.cpp:188-189 | a 4-byte lead (F0..F4) makes the decoder jump 3 more bytes with `it += encoded_offset`, without the terminator check the width 1..3 loop performs | the truncated sequence F0 9F | the skip stops at the terminator, like the continuation loop at line 185 | medium, not executed | `Utf8Properties.TruncatedFourByteOverRead` (model `Utf8Decode.DecodeAsWritten`) | `Utf8Decode.Decode` (`Utf8Decode.DecodeStep`) |
