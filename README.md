# Error-Codes-Generator, modelled in Dafny

Error-Codes-Generator reads a hierarchy of modules from YAML. Each module has direct errors and
submodules, and each submodule has errors. The tool turns the hierarchy into a C header. The header
has one `#define NAME (-0x....)` line per error. It also has a descriptor table that the C function
`my_strerror` searches to turn a code back into its description.

The model has five modules, each in its own file:

- `wrappers.dfy` (`Wrappers`): `Option` and `Result`.
- `encoder.dfy` (`Encoder`): the bit-field encoder.
  - `calculate_mask` and `encode_error_code`, with field widths of 5, 5 and 6 bits.
  - Python's `<<`, `|`, `>>` and `&` on non-negative integers, written out as functions.
  - The overflow error is a value: which field failed, its value and its width.
  - Lemmas cover the masks, the closed form `m·2048 + s·64 + e`, the bound 2^16, decoding by shift
    and mask, and injectivity.
- `hierarchy.dfy` (`Hierarchy`): what `validate_and_generate_error_codes` computes.
  - The input is a sequence of modules. Each module has a name, its errors and its submodules,
    all in insertion order.
  - `process_module` is a recursive function over the enumerated errors.
  - The module and submodule loops are recursive reference functions: `ModulesFrom` and
    `SubmodulesFrom`, which `Generate` uses.
  - Lemmas cover:
    - when generation succeeds and what the first failure is;
    - the output as a concatenation of blocks, one per scope, in declared order;
    - strictly increasing codes that stay inside their module's range;
    - one record per error;
    - codes that depend only on the shape of the hierarchy, not on names or descriptions;
    - an empty submodule using up its id.
- `renderer.dfy` (`Renderer`): `format_code` and `format_output`.
  - `FormatOutput` is a method with the same loop as the source. The loop's body is the method
    `AddRecord`. It appends to `output` and `descriptions` and tracks `current_module` and
    `current_submodule`.
  - It is proved equal to `Rendered`. `Rendered` is defined by a step function, `Step`, over the
    records.
  - Lemmas cover:
    - the hex code reads back and is injective;
    - when a header is emitted;
    - exactly one `#define` line and one descriptor line per record, in record order;
    - the column layout of both kinds of line.
- `generator.dfy` (`Generator`): `validate_and_generate_error_codes`, as two methods.
  - `CollectRecords` holds the two nested loops. They extend one record list and count the ids
    up, and are proved to compute `Generate(modules)`.
  - `ValidateAndGenerateErrorCodes` passes the collected records to `FormatOutput`. It is proved
    to return `Output(modules)`, the rendered text of `Generate(modules)`.
  - Lemmas cover when a whole run succeeds.
- `strerror.dfy` (`StrError`): `my_strerror` from `error_codes.c`.
  - It is a `for` loop over an array with an early return. The array is not in its `modifies`
    clause, so it cannot change the table.
  - It is proved equal to the first-match function `Describe`.
  - Lemmas cover:
    - the first match;
    - the fallback;
    - distinct codes;
    - later entries being irrelevant;
    - the table generated from the records. Each entry takes the value of the macro named
      after its error. A later `#define` of the same name replaces an earlier one, so the value
      is the negated code of the last error of that name. Looking up a macro's value gives the
      description of the first error of that name, which is the error's own description when
      no earlier error shares its name. 0 is unknown.

Error names are keys of one `errors` mapping, so they are unique only within one scope. Nothing in
`validate_and_generate_error_codes` (parser.py:90-105) or `format_output` (parser.py:107-149)
compares names across scopes. Take module A with error `TIMEOUT` and module B with error
`TIMEOUT`. The header then defines `TIMEOUT` twice, as `(-0x0801)` and then as `(-0x1001)`, and
both table entries read `-0x1001`. `my_strerror(-0x1001)` returns A's description, and A's own
code `-0x0801` is unknown. `StrError.RepeatedNameAcrossModules` states this case, and
`StrError.GeneratedDistinct` proves that the table's codes are distinct exactly when the names are
unique across the hierarchy.

An empty `modules` mapping gives an empty record list: `Generate([]) == Ok([])`. `format_output`
then calls `max()` on no names (parser.py:108), which raises. So a hierarchy with no error fails
as a whole run. See `Generator.NoErrorsFails`.

## Model

| member | source | states |
|---|---|---|
| Encoder.CalculateMask | parser.py:60-61 | the mask plus one is 2^bits |
| Encoder.MaskValues | parser.py:43-48 | the configured masks are 31, 31 and 63, and 2^EC_SIZE_BITS is 65536 |
| Encoder.MaskHalves | parser.py:60-61 | a non-empty mask is odd and halves to the next smaller mask |
| Encoder.Pack | parser.py:79 | `(m << 11) \| (s << 6) \| e`, written with the modelled operators, equals m·2048 + s·64 + e when s and e fit their widths |
| Encoder.ShiftLeftIsMul | parser.py:79 | `x << k` is x·2^k |
| Encoder.OrDisjoint | parser.py:79 | or-ing a value below 2^k into `x << k` adds it |
| Encoder.MaskSelectsLowBits | parser.py:60-61 | and-ing with calculate_mask(bits) keeps x mod 2^bits |
| Encoder.EncodeErrorCode | parser.py:63-79 | succeeds iff m ≤ 31, s ≤ 31 and e ≤ 63; otherwise names the first failing field in the order module, submodule, error id, with its value and width; on success the code is m·2048 + s·64 + e and below 2^16 |
| Encoder.ShiftLeft | parser.py:79 | definition of `x << k` on a non-negative integer as k doublings; its meaning is stated by `Encoder.ShiftLeftIsMul` |
| Encoder.ShiftRight | parser.py:79 | definition of `x >> k` as k halvings, the operator the model's decoder uses; `Encoder.ShiftRightIsDiv` proves it is division by 2^k |
| Encoder.BitOr | parser.py:79 | definition of `\|` bit by bit from the lowest bit; its meaning on disjoint bit ranges is stated by `Encoder.OrDisjoint` |
| Encoder.BitAnd | parser.py:79 | definition of `&` bit by bit from the lowest bit; `Encoder.MaskSelectsLowBits` proves that and-ing with a mask keeps the low bits |
| Encoder.ShiftRightIsDiv | parser.py:79 | `x >> k` is the quotient of x by 2^k |
| Encoder.Decode | parser.py:79 | not in the source: the inverse of the packing, by shift and mask, against which `Encoder.DecodeEncode` states that the packing loses nothing |
| Encoder.DecodeEncode | parser.py:79 | shifting and masking a code returns the (m, s, e) it was built from |
| Encoder.EncodeInjective | parser.py:79 | two successful encodings with the same code have the same three ids |
| Encoder.ModuleBoundary | parser.py:72-73 | module id 31 still encodes, and module id 32 fails on the module field |
| Hierarchy.ProcessFrom | parser.py:85-87 | the comprehension from error id k: succeeds iff there are no errors or every id through k+n−1 fits; record i carries the given names, the i-th error's name and description, and code m·2048 + s·64 + k + i; a failure is the first failing encoding |
| Hierarchy.ProcessModule | parser.py:84-88 | one record per error in order, error ids counting from 1; succeeds iff the scope is empty or its module id, submodule id and count fit |
| Hierarchy.Chain | parser.py:95-100 | definition of `all_errors.extend(...)` on results: the first failure ends the run, otherwise the lists are joined |
| Hierarchy.SubmodulesFrom | parser.py:99-101 | definition of the submodule loop, submodule ids counting up by `SUBMODULE_ID_INCREMENT`; its properties are the `Submodules...` lemmas below |
| Hierarchy.ModuleRecords | parser.py:95-101 | definition of one module iteration: the direct errors with submodule id 0, then the submodule loop from id 1 |
| Hierarchy.ModulesFrom | parser.py:94-103 | definition of the module loop, module ids counting up by `MODULE_ID_INCREMENT`; its properties are the `Modules...` lemmas below |
| Hierarchy.Generate | parser.py:90-103 | definition of the record list handed to `format_output`: the module loop from `START_MODULE_ID`; `Generator.CollectRecords` is proved to compute it |
| Hierarchy.ScopeUsesMasks | parser.py:68-77 | the bounds in `ScopeFits` and `ScopeFailure` are the configured masks, and a failure reports the configured width of its field |
| Hierarchy.SubmodulesOkIff | parser.py:99-101 | the submodule loop succeeds iff every submodule, numbered from its start id upward, fits |
| Hierarchy.ModuleOkIff | parser.py:95-101 | one module iteration succeeds iff its direct scope (submodule id 0) and each submodule (ids from 1) fit |
| Hierarchy.ModulesOkIff | parser.py:94-103 | the module loop succeeds iff every module, numbered upward from its start id, fits |
| Hierarchy.GenerateOkIff | parser.py:90-103 | generation succeeds iff every module, numbered from 1 in input order, fits |
| Hierarchy.SubmodulesFailure | parser.py:99-101 | a failing submodule loop fails with the first failing encoding of the first submodule that does not fit |
| Hierarchy.ModuleFailure | parser.py:95-101 | a failing module fails on its direct scope if that does not fit, otherwise on the first ill-fitting submodule |
| Hierarchy.ModulesFailure | parser.py:94-103 | a failing module loop fails with the failure of the first module whose iteration fails, and every module before it succeeds |
| Hierarchy.GenerateFailure | parser.py:90-103 | a failing generation fails with the failure of the first module, numbered from 1, that does not fit |
| Hierarchy.SubmodulesAsBlocks | parser.py:97-101 | the submodule loop's records are the submodules' blocks joined in declared order, submodule ids counting up by 1 |
| Hierarchy.ModuleAsBlocks | parser.py:95-101 | a module's records are its direct errors (submodule id 0) followed by its submodule blocks |
| Hierarchy.ModulesAsBlocks | parser.py:94-103 | the module loop's records are the modules' blocks joined in input order, module ids counting up by 1 |
| Hierarchy.GenerateAsBlocks | parser.py:90-103 | the generated records are the module blocks joined in order, module ids from 1 |
| Hierarchy.ScopeOrdered | parser.py:84-88 | a scope's codes strictly increase and lie within that scope's 64-code window |
| Hierarchy.SubmodulesOrdered | parser.py:97-101 | the submodule loop's codes strictly increase and stay inside the module's 2048-code range |
| Hierarchy.ModuleOrdered | parser.py:94-101 | a module's codes strictly increase and lie in [m·2048, m·2048 + 2048) |
| Hierarchy.ModulesOrdered | parser.py:94-103 | the module loop's codes strictly increase and lie between the first module's range and 2^16 |
| Hierarchy.GenerateOrdered | parser.py:90-103 | all generated codes strictly increase (so they are distinct) and lie in [2048, 65536) |
| Hierarchy.SubmodulesCount | parser.py:99-101 | the submodule loop yields one record per submodule error |
| Hierarchy.ModulesCount | parser.py:94-103 | the module loop yields one record per error in the modules |
| Hierarchy.GenerateCount | parser.py:90-103 | one record per error of the hierarchy; the list is empty iff the hierarchy has no error |
| Hierarchy.ScopeCodes | parser.py:84-88 | a scope's codes depend only on its ids and its number of errors, not on names or descriptions |
| Hierarchy.SubmodulesCodes | parser.py:99-101 | submodule lists with the same error counts give the same codes |
| Hierarchy.ModulesCodes | parser.py:94-103 | module lists with the same layout of error counts give the same codes |
| Hierarchy.GenerateCodesByLayout | parser.py:90-103 | two hierarchies with the same layout get the same codes, or the same failure |
| Hierarchy.EmptySubmoduleConsumesId | parser.py:97-101 | an empty first submodule still takes submodule id 1, so the next submodule's single error is code m·2048 + 2·64 + 1 |
| Renderer.FormatCode | parser.py:81-82 | definition of `(-0x{code:04x})`; `Renderer.FormatCodeReadsBack` and `Renderer.FormatCodeInjective` state what it produces |
| Renderer.ModuleComment | parser.py:118-120 | definition of the `// module` line that `add_module_header` appends to `output` |
| Renderer.ModuleTableComment | parser.py:118-120 | definition of the `/* module */` line that `add_module_header` appends to `descriptions` |
| Renderer.SubmoduleComment | parser.py:122-124 | definition of the `// module::submodule` line that `add_submodule_header` appends to `output` |
| Renderer.SubmoduleTableComment | parser.py:122-124 | definition of the `/* module::submodule */` line that `add_submodule_header` appends to `descriptions` |
| Renderer.DefineLine | parser.py:139 | definition of the `#define` line; `Renderer.DefineColumns` proves its layout |
| Renderer.DescriptorLine | parser.py:140 | definition of the table entry; `Renderer.DescriptorColumns` proves its layout |
| Renderer.Headers | parser.py:127-137 | definition of the two header tests of one iteration; `Renderer.ModuleHeaderIff` and `Renderer.SubmoduleHeaderIff` state when they hold |
| Renderer.Step | parser.py:126-143 | definition of one loop iteration on the state (`output`, `descriptions`, cursor); `Renderer.AddRecord` is proved to perform it |
| Renderer.Walk | parser.py:109-143 | definition of the loop from its initial lists: Step over the records in order; `Renderer.WalkSnoc` and `Renderer.WalkLinesInOrder` state its properties |
| Renderer.RenderedLines | parser.py:145-148 | definition of the final list: the walked `output`, a blank line, the descriptions with their closing line, then `C_FOOTER` |
| Renderer.Join | parser.py:149 | definition of `"\n".join` |
| Renderer.Spaces | parser.py:140 | `' ' * n` is n spaces |
| Renderer.LJust | parser.py:139 | `ljust` keeps the string, pads it with spaces to the width, and never truncates |
| Renderer.MaxNameLength | parser.py:108 | the maximum name length bounds every record's name and is reached by one of them |
| Renderer.Rendered | parser.py:107-149 | format_output succeeds iff there is at least one record; otherwise it fails as `max()` of nothing |
| Renderer.AddRecord | parser.py:126-143 | one iteration of the loop (module header with its blank line, submodule header, `#define` line, table entry, cursor update) performs exactly one reference step `Step` |
| Renderer.FormatOutput | parser.py:107-149 | the loop over the records builds exactly the rendered header text |
| Renderer.WalkSnoc | parser.py:126-143 | rendering one more record applies one more loop step to the state |
| Renderer.LowerHexDigits | parser.py:82 | the `x` conversion gives lowercase hex digits whose value is n, with no leading zero and the fewest digits |
| Renderer.ZeroPadDigits | parser.py:82 | zero-padding keeps the digits' value, reaches the width, and adds leading zeros only to a shorter string |
| Renderer.FourDigits | parser.py:82 | a code below 2^16 has at most four hex digits |
| Renderer.FormatCodeReadsBack | parser.py:81-82 | `(-0x` + hex + `)` parses back to the code; at least 4 digits, exactly 4 below 2^16, no leading zero beyond 4 |
| Renderer.FormatCodeInjective | parser.py:81-82 | distinct codes give distinct macro values |
| Renderer.CursorBefore | parser.py:142-143 | before record i the tracked module and submodule are those of record i−1, both None at the start |
| Renderer.ModuleHeaderIff | parser.py:127-132 | a module header is emitted for record i exactly when it is the first record or its module name differs from the previous record's |
| Renderer.SubmoduleHeaderIff | parser.py:132-137 | a submodule header is emitted exactly when the submodule name is not None and differs from the one tracked (reset at a module change) |
| Renderer.NoDefineInHeaders | parser.py:118-124 | header and blank lines are neither `#define` lines nor descriptor entries |
| Renderer.HeaderNoDefine | parser.py:30-37 | the C header prologue contains no error `#define` line |
| Renderer.PrologueNoEntry | parser.py:110-113 | the descriptor prologue contains no descriptor entry |
| Renderer.StepDefines | parser.py:139 | each loop step adds exactly one `#define` line, for its record |
| Renderer.StepDescriptors | parser.py:140 | each loop step adds exactly one descriptor entry, for its record |
| Renderer.WalkLinesInOrder | parser.py:126-143 | among the elements of the `output` list, the `#define` lines are one per record in record order, and likewise the descriptor entries among the elements of `descriptions` |
| Renderer.DefineColumns | parser.py:139 | a `#define` line is the name padded to max length + 2, a space, then the macro value at a fixed column |
| Renderer.DescriptorColumns | parser.py:140 | a descriptor entry is `{name, ` padded so that every quoted description starts at the same column |
| Generator.Output | parser.py:90-105 | definition of the whole run: the first overflow, or `Renderer.Rendered` of the generated records; `Generator.ValidateAndGenerateErrorCodes` is proved to compute it |
| Generator.CollectRecords | parser.py:91-103 | the nested loops, extending one list and counting module ids from 1 and submodule ids from 1 per module, collect exactly the generated records, or stop at the first overflow |
| Generator.ValidateAndGenerateErrorCodes | parser.py:90-105 | the whole run returns the rendered text of the generated records, or the first overflow, or the empty-list failure |
| Generator.OutputOkIff | parser.py:90-108 | a run succeeds iff every module fits and the hierarchy has at least one error |
| Generator.NoErrorsFails | parser.py:105-108 | a hierarchy whose scopes all fit but that has no error (an empty one included) fails with the empty-record-list error |
| StrError.Describe | error_codes.c:32-39 | definition of the first-match search with its fallback; `StrError.MyStrError` is proved to compute it, and the lemmas below state its behaviour |
| StrError.MyStrError | error_codes.c:32-39 | the loop returns the first-match description, or the fallback, and only reads the table |
| StrError.DescribeFirstMatch | error_codes.c:33-36 | the lowest-index entry carrying the code supplies the description |
| StrError.DescribeNoMatch | error_codes.c:38 | with no matching entry, the empty table included, the result is "Unknown error" |
| StrError.DescribeDistinct | error_codes.c:33-36 | with distinct codes, each entry's code looks up that entry's own description |
| StrError.DescribeIgnoresLater | error_codes.c:33-36 | entries after a match never change the result |
| StrError.LastNamed | parser.py:139 | the index of the last of the first n records with a given error name, or −1 when none has it: the `#define` of that name in force after the header is read |
| StrError.FirstNamed | error_codes.c:33-36 | the index of the first record from a given index on with a given error name, or the length when none has it |
| StrError.MacroValue | parser.py:139 | definition of the value of record k's macro once the whole header is read: the negated code of the last record with the same name |
| StrError.GeneratedTable | parser.py:140 | definition of the `EC_DEF_STRERROR_ARRAY` entries in record order: the value of the macro that names each error, paired with that error's description |
| StrError.MacroValueByName | parser.py:139 | for generated records, two records' macros have the same value iff the records have the same error name |
| StrError.GeneratedDistinct | parser.py:139-140 | the table generated from strictly increasing records has distinct codes iff the error names are unique across all records |
| StrError.LookupGenerated | error_codes.c:32-39 | for a generated header, the value of an error's macro looks up the description of the first error with that name, which is its own description when no earlier error has its name |
| StrError.LookupOwnCode | error_codes.c:32-39 | for a generated header, an error's own negated code is unknown when a later error has the same name; otherwise it looks up the description of the first error with that name |
| StrError.RepeatedNameAcrossModules | parser.py:94-103 | two modules with one direct error each, both with the same name, are accepted with codes 0x0801 and 0x1001; both macros read −0x1001, that value finds the first module's description, and −0x0801 is unknown |
| StrError.TwoSingleErrorModules | parser.py:94-103 | two modules with one direct error each generate two records, with codes 0x0801 and 0x1001 |
| StrError.SingleErrorModule | parser.py:95-101 | a module with one direct error and no submodules yields that error's single record, with code m·2048 + 1 |
| StrError.SuccessUnknown | error_codes.c:38 | for a generated header, 0 and every value above −2048 are unknown |

## Left out

- `main` and `parse_arguments` (parser.py:151-174) are left out. These are argument parsing, YAML loading, file writing, stderr messages and the exit status, all I/O.
- The YAML input is modelled as an explicit, ordered structure of modules. A missing `errors` or `submodules` key is an empty sequence, and a module without `submodules` behaves like one with none. Malformed input, where a value is not a mapping, has no counterpart.
- Name uniqueness within one scope (dict keys) is not a precondition, because no proved property needs it. Repeated names across scopes are modelled: see `StrError.MacroValue`.
- Encoder.EncodeErrorCode: the `ValueError` message text is represented by the structured `EncodingOverflow(field, value, bits)`, not by its formatted string.
- Negative ids are left out because the walker never produces them. Ids are `nat`, so the source's lack of a lower-bound check is not modelled.
- `ERROR_ID_INCREMENT` is declared but not used by the source: `enumerate` always steps by 1, as the model does.
- `C_HEADER`, `C_FOOTER` and the descriptor prologue are modelled as constant strings. Beyond ruling out error lines inside them, no property is proved about their text.
- The C preprocessor is left out, apart from which `#define` of a name is in force (`StrError.MacroValue`): `ARRAY_SIZE`, the textual `EC_DEF_STRERROR_ARRAY` expansion and the width of `error_code_t`. `error_codes_def.h` is not part of this model. The table is an array of (integer code, text) pairs.
- StrError.GeneratedTable takes each description as the value of its C string literal. Escape sequences or quotes inside a description, which the source pastes unescaped, are not interpreted.
- The link between the rendered descriptor lines and `StrError.GeneratedTable` is stated in words, not proved, because it would need a model of C compilation. Each entry names the macro of its error and carries the record's description, in record order. The macro's value is the one the last `#define` of that name gives.
- StrError.MacroValue: a C compiler may reject or only warn about a macro defined twice with different values. The model takes the common behaviour, where the last definition is in force.
