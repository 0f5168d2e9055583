# Packed-String, modelled in Dafny

Packed-String stores a string of up to 20 characters in one 128-bit value:
two 64-bit words `lo` and `hi`. Each character is a six-bit code from a
64-symbol alphabet:

- digits `0`–`9` are codes 0–9;
- `a`–`z` are codes 10–35;
- `A`–`Z` are codes 36–61;
- `_` is code 62 and `$` is code 63.

Codes 0–9 fill `lo` from its low bits. Code 10 is split: four bits at the
top of `lo` and two at the bottom of `hi`. Codes 11–19 follow in `hi` from
bit 2. The top byte of `hi` is the metadata `length << 3 | flags`, with
three flags: CASE_SENSITIVE, CONTAINS_DIGIT and CONTAINS_SPECIAL. A length
field above 20 marks an invalid value.

This project models the following parts of the repository:

- **The character tables** (`encoding.h`): module `Encoding`.
- **The bit-level helpers** (`helper.h`):
  - the 128-bit shifts and the code getters and setters (`Helper`);
  - the masks, the code writer and the fill loop (`HelperWrite`);
  - the window test `ps_is_at` and the searches `ps_find` and `ps_reverse_find` (`HelperScan`).
- **The packed16 variant** (`packed16/packed-string.h` and `packed16/packed-string.c`):
  - the value and its fields (`Packed`);
  - packing and unpacking (`Packing`);
  - code access (`Access`);
  - comparison (`Comparing`);
  - prefix and suffix tests (`Searching`);
  - slicing and concatenation (`Slicing`, over the code-sequence algebra in `CodeSeqs`);
  - case mapping (`Casing`);
  - padding (`Padding`);
  - find and contains (`Finding`);
  - the lock/unlock cipher (`Locking`).
- **The earlier variant at the repository root** (`packed-string.c`), whose flag bit 1 is STARTS_WITH_DIGIT: module `Legacy`. Its header `packed-string.h` disagrees with the .c in places: it names bit 1 PACKED_FLAG_CONTAINS_DIGIT (packed-string.h:63) and declares ps_unpack as returning `i32` (packed-string.h:188), while the .c returns `bool`. The model follows the .c.
- **The two Robin Hood hash tables** (`hash-table/ps-robinhood.h` and `hash-table/cs-robinhood.h`):
  - one generic class `RobinHood.Table`, an array of slots that the methods update in place;
  - the two key hashes, in `TableKeys`.

Each operation is stated in two ways. The first is the value's text: the
sequence of its codes, `Content`. The second is its cleanliness: `Clean`,
meaning no code bit is set past the length. Where the C code does
something its authors evidently did not intend, two members are given: one
that models the code as written and shows the discrepancy, and a corrected
one. The rest of the model builds on the corrected one (see "## Findings").

## Model

| member | source | states |
|---|---|---|
| Encoding.CharToSixbitTable | encoding.h:13-32 | every entry is below 64, and every byte outside the alphabet maps to 0 |
| Encoding.SixbitToCharClasses | encoding.h:6-11 | the symbol table has 64 entries: digits at codes 0-9, 'a'..'z' at 10-35, 'A'..'Z' at 36-61, '_' at 62 and '$' at 63 |
| Encoding.SixbitToCharInAlphabet | encoding.h:6-11 | every code below 64 decodes to an alphabet character of the same class (digit, lower, upper, special), in both directions |
| Encoding.CharToSixbitOfSixbitToChar | encoding.h:6-32 | looking up a code's symbol in the byte table gives the code back |
| Encoding.SixbitToCharOfCharToSixbit | encoding.h:6-32 | looking up an alphabet character's code in the symbol table gives the character back |
| Encoding.SixbitToCharDistinct | encoding.h:6-11 | the 64 symbols are pairwise distinct |
| Encoding.CharToSixbitZero | encoding.h:13-32 | the byte table gives 0 exactly for '0' and for characters outside the alphabet |
| Encoding.ToLowerTableSpec | encoding.h:34-44 | TO_LOWER_TABLE has 64 entries and each equals the reference lower-casing of its code |
| Encoding.ToUpperTableSpec | encoding.h:46-56 | TO_UPPER_TABLE has 64 entries and each equals the reference upper-casing of its code |
| Encoding.CaseTablesAlgebra | encoding.h:34-56 | both tables stay below 64, are idempotent, and lower-casing after upper-casing equals lower-casing (and the other way round) |
| Encoding.ToLowerTableOnChars | encoding.h:34-44 | for an upper-case code, the lower-cased code's symbol is the symbol plus 32 (ASCII lower case) |
| Helper.GetN | helper.h:93-103 | ps_get_n_sixbit: every code read is below 64, and code 21 (the top two bits of hi) is below 4 |
| Helper.RegionGettersAgree | helper.h:63-103 | ps_get_lo (n < 10), ps_get_mid and ps_get_hi (n + 11) read the same code as ps_get_n_sixbit |
| Helper.SetLo | helper.h:82-85 | ps_set_lo: code n of lo becomes sixbit (its low 4 bits for n = 10) and every other code of lo is unchanged |
| Helper.SetMid | helper.h:75-80 | ps_set_mid: code 10 becomes the low 6 bits of sixbit; codes 0-9 of lo and every code of hi are unchanged |
| Helper.SetHi | helper.h:87-91 | ps_set_hi: code 11 + n becomes sixbit (its low 2 bits for n = 10), every other hi code and hi's two bits of code 10 are unchanged |
| Helper.SetNSixbit | helper.h:105-121 | ps_set_n_sixbit: code n becomes sixbit, every other code keeps its value, and below index 20 the metadata byte is unchanged |
| Helper.Shr | helper.h:11-14 | ps_shr by 6k bits (0 < shift < 64): code i of the result is code i + k, or 0 past the top |
| Helper.Shl | helper.h:6-9 | ps_shl by 6k bits (0 < shift < 64): code i of the result is code i - k, or 0 below k |
| Helper.Shr128 | helper.h:26-34 | ps_shr128 by 6k bits, both branches: code i of the result is code i + k, or 0 past the top |
| Helper.Shl128 | helper.h:16-24 | ps_shl128 by 6k bits, both branches (shift 0 and 64 excluded): code i of the result is code i - k, or 0 below k |
| Helper.PackMetadata | helper.h:135-137 | for a length below 32 and flags below 8, the byte's bits 3..7 are the length and bits 0..2 the flags |
| Helper.MetadataIsTopCodes | helper.h:139-141 | the metadata byte hi[56:63] is code 20 with code 21 above it |
| Helper.InsertMetadata | helper.h:143-146 | ps_insert_metadata: reading the metadata back gives the byte written, and hi[0:55] is unchanged |
| Helper.SameLowHiKeepsCodes | helper.h:143-146 | keeping hi[0:55] keeps codes 0..19 |
| Helper.SixbitToChar | helper.h:148-150 | ps_sixbit_to_char: '?' for 64 and above, an alphabet character below |
| Helper.CharToSixbit | helper.h:153-156 | ps_char_to_sixbit: UINT8_MAX exactly for characters outside the alphabet, a code below 64 otherwise |
| Helper.CharValid | helper.h:159-161 | ps_char_valid is true exactly for alphabet characters, exactly when ps_char_to_sixbit is not UINT8_MAX |
| Helper.CharRoundTrip | helper.h:148-156 | decoding the code of a valid character gives the character |
| Helper.SixbitRoundTrip | helper.h:148-156 | encoding the symbol of a code below 64 gives the code |
| Helper.Codes | helper.h:93-103 | the 22 slots of hi:lo in index order: 22 entries, entry i is ps_get_n_sixbit(lo, hi, i) |
| HelperWrite.WriteSixbit | helper.h:123-133 | ps_write_sixbit at a bit position 6n: code n gets the written code OR-ed in, every other code is unchanged |
| HelperWrite.Fill | helper.h:268-278 | ps_fill: code i of the result is sixbit for i below length and 0 from there on, with the bit length taken as the u8 product length * 6 |
| HelperWrite.Limit | helper.h:51-61 | ps_limit: codes below length keep their value and the others in the masked word are cleared; below 11 codes hi is untouched, from 11 on lo is untouched |
| HelperScan.Find | helper.h:205-234 | ps_find: -1 or an index from idx up to 19 holding sixbit, with no code equal to sixbit between idx and that index (the least one) |
| HelperScan.FindIn | helper.h:205-234 | the same search over a 22-entry code sequence: -1 or the least index from idx up to 19 holding sixbit |
| HelperScan.ReverseFind | helper.h:236-266 | ps_reverse_find: -1 or the greatest index at or below idx (and below 20) holding sixbit; -1 for idx from 20 on |
| HelperScan.ReverseFindIn | helper.h:236-266 | the same search over a 22-entry code sequence |
| HelperScan.IsAtAsWritten | helper.h:163-203 | ps_is_at as written, on the inputs where no shift reaches 64: false whenever idx + len2 passes len1 |
| HelperScan.IsAt | helper.h:163-203 | ps_is_at with the boundary mask of idx 0 taken as all ones: false whenever idx + len2 passes len1 |
| HelperScan.IsAtWindow | helper.h:163-203 | on a haystack of at most 20 codes the corrected ps_is_at is true exactly when codes idx..idx+len2-1 equal the needle's codes 0..len2-1 |
| HelperScan.IsAtAsWrittenAgrees | helper.h:163-203 | wherever ps_is_at as written is defined it gives the same answer as the corrected one |
| HelperScan.IsAtAsWrittenUndefinedAtZero | helper.h:187-192 | a window of 11 to 20 codes at index 0 within the haystack is outside the as-written domain (it computes `1ULL << 64`) but inside the corrected one |
| Packed.Length | packed16/packed-string.h:178-180 | ps_length is the top five bits of the metadata byte, so always below 32 |
| Packed.Flags | packed16/packed-string.h:188-190 | ps_flags is the low three bits of the metadata byte, so always below 8 |
| Packed.ValidLength | packed16/packed-string.h:198-200 | ps_valid holds exactly when the length field is at most PACKED_STRING_MAX_LEN (20) |
| Packed.Sentinels | packed16/packed-string.h:117-127 | the INVALID, NULL and EMPTY sentinels carry lengths 31, 30 and 29, no flags, no codes, and none of them is valid |
| Packed.EmptyValue | packed16/packed-string.h:208-219 | ps_empty() has length 0 and no flags, is valid, satisfies ps_is_empty and holds the empty code sequence |
| Packed.Make | packed16/packed-string.h:241-246 | ps_make keeps lo and hi[0:55] and writes the metadata byte; for a length below 32 and flags below 8 they read back unchanged |
| Packed.MetadataFields | packed16/packed-string.h:178-190 | a metadata byte written from (length, flags) reads back as that length and those flags |
| Packed.MakeOwnMetadata | packed16/packed-string.h:178-246 | re-making a value from its own words, length and flags gives the same value |
| Packed.Content | packed16/packed-string.h:178-180 | the codes of a valid value: as many as its length, entry i being the six-bit code at position i |
| Packed.CleanRepresents | packed16/packed-string.h:178-200 | a value whose codes past its length are zero is valid and is the one representation of its content and flags |
| Packed.CodesDetermineWords | helper.h:93-103 | two values whose 22 code positions agree are the same value: the codes cover all 128 bits |
| Packed.RepresentsUnique | packed16/packed-string.c:50-86 | at most one value represents a given code sequence with given flags |
| Packed.Equal | packed16/packed-string.h:383-385 | ps_equal holds exactly when both words are equal |
| Packed.EqualImpliesNometa | packed16/packed-string.h:383-397 | equal values are also equal by ps_equal_nometa |
| Packed.NometaIgnoresMetadata | packed16/packed-string.h:394-397 | ps_equal_nometa holds exactly when b, given a's length and flags, is a |
| Packed.NometaCodes | packed16/packed-string.h:394-397 | ps_equal_nometa holds exactly when the codes at positions 0..19 agree |
| Packed.CleanEqual | packed16/packed-string.h:383-385 | for values with no stray codes past their length, ps_equal holds exactly when contents and flags agree |
| Packed.PackedCompare | packed16/packed-string.h:419-433 | ps_packed_compare returns -1, 0 or 1 |
| Packed.PackedCompareZero | packed16/packed-string.h:419-433 | ps_packed_compare is 0 exactly when ps_equal_nometa holds |
| Packed.PackedCompareAntisymmetric | packed16/packed-string.h:419-433 | swapping the operands negates the result |
| Packed.PackedCompareTransitive | packed16/packed-string.h:419-433 | the order is transitive: a < b and b < c give a < c |
| Packed.PsChar | packed16/packed-string.h:144-149 | ps_char is the encoding table's code, and UINT8_MAX exactly for characters outside the alphabet |
| Packed.PsSix | packed16/packed-string.h:157-160 | ps_six is the symbol table's character, and ps_char gives any code below 64 back |
| Packed.PsAlphabet | packed16/packed-string.h:163-166 | ps_alphabet holds exactly for alphabet characters, that is when ps_char is not UINT8_MAX |
| Packed.Fmix64Inverse | packed16/packed-string.c:644-656 | the MurmurHash3 finalizer used by ps_hash64 has an inverse: it is a bijection on 64-bit words |
| Packed.Fmix64Injective | packed16/packed-string.c:644-656 | different inputs to the finalizer give different outputs |
| Packed.Hash64Collision | packed16/packed-string.c:644-656 | two values collide in ps_hash64 exactly when lo ^ hi is the same word for both |
| Packed.Hash32OfHash64 | packed16/packed-string.c:630-642 | ps_hash32 is the xor-fold of the 64-bit finalized word, so a 64-bit collision is also a 32-bit one |
| Packed.XorLength | packed16/packed-string.h:652-655 | ps_table_hash's `^ length << 24` changes only bits 24..28 of the 32-bit hash |
| Packed.XorLengthTwice | packed16/packed-string.h:652-655 | applying the length mix twice gives the hash back, so no hash information is lost |
| Packing.Encode | packed16/packed-string.c:50-86 | the code sequence ps_pack stores for a text: one code per character, the encoding table's code for it |
| Packing.Decode | packed16/packed-string.c:136-149 | the text ps_unpack writes for a code sequence: one character per code, the symbol table's character for it |
| Packing.DecodeEncode | packed16/packed-string.c:50-149 | decoding the encoding of an alphabet text gives the text back |
| Packing.EncodeDecode | packed16/packed-string.c:50-149 | encoding the decoding of a sequence of codes below 64 gives the codes back |
| Packing.PrefixFlagsSpec | packed16/packed-string.c:57-63 | the flags ps_pack accumulates over the first n characters: CASE_SENSITIVE iff one is upper case, CONTAINS_DIGIT iff one is a digit, CONTAINS_SPECIAL iff one is '_' or '$' |
| Packing.CharFlagsSpec | packed16/packed-string.c:57-63 | the same three equivalences over the whole text |
| Packing.Pack | packed16/packed-string.c:50-86 | ps_pack returns INVALID exactly for NULL, a character outside the alphabet or more than 20 characters; otherwise the one value holding the text's codes and its class flags |
| Packing.NotPackable | packed16/packed-string.c:57-79 | a character outside the alphabet, or a 21st character, makes the text unpackable |
| Packing.Unpack | packed16/packed-string.c:136-149 | ps_unpack returns -1 and writes nothing for a NULL buffer or an invalid value; otherwise it writes the decoded text and a NUL and returns the length, leaving the rest of the buffer as it was |
| Packing.PackUnpackRoundTrip | packed16/packed-string.c:50-149 | unpacking what ps_pack produced gives the original text |
| Packing.UnpackPackRoundTrip | packed16/packed-string.c:50-149 | the text unpacked from a valid value is packable, and packing it gives the value's codes back |
| Packing.FoldEx | packed16/packed-string.c:108-110 | the text ps_pack_ex stores: upper case folded to lower case unless CASE_SENSITIVE is declared |
| Packing.PackEx | packed16/packed-string.c:88-134 | ps_pack_ex returns INVALID exactly when the text is NULL, the length is over 20, or one of the first `length` characters is outside the alphabet or of a class the declared flags forbid; otherwise it holds the folded codes and the flags computed from the characters |
| Packing.CharAt | packed16/packed-string.c:100-101 | reading at or past the end of the text (its NUL) gives a character outside the alphabet |
| Packing.PackExFlagsBeforeFold | packed16/packed-string.c:106-113 | the flags are taken from each character before it is folded, so ps_pack_ex("A", 1, 0) stores the text "a" with CASE_SENSITIVE set |
| Packing.PackExRejects | packed16/packed-string.c:112-123 | a single forbidden character among the first `length` makes ps_pack_ex reject |
| Packing.PackExAllFlagsIsPack | packed16/packed-string.c:50-134 | with all three flags declared and the text's own length, ps_pack_ex accepts exactly what ps_pack accepts and builds the same value |
| Packing.UnpackExCode | packed16/packed-string.c:162-168 | the code ps_unpack_ex emits for one stored code: the code itself, folded to lower case without CASE_SENSITIVE, or none |
| Packing.UnpackExCodeDropped | packed16/packed-string.c:162-168 | a code is dropped exactly when it is a digit without CONTAINS_DIGIT or '_'/'$' without CONTAINS_SPECIAL |
| Packing.UnpackExText | packed16/packed-string.c:151-173 | the text ps_unpack_ex writes is never longer than the codes it reads |
| Packing.ExText | packed16/packed-string.c:151-173 | the text ps_unpack_ex writes for the first `length` positions is at most `length` long |
| Packing.UnpackEx | packed16/packed-string.c:151-173 | ps_unpack_ex returns -1 and writes nothing for a NULL buffer, a length over 20 or an invalid value; otherwise it writes the filtered, folded text of the first `length` positions and a NUL and returns its length |
| Packing.UnpackExTextAllFlags | packed16/packed-string.c:151-173 | with all three flags the filter keeps everything: the text is the plain decoding |
| Packing.UnpackExAllFlags | packed16/packed-string.c:136-173 | with all flags and the value's own length, ps_unpack_ex writes what ps_unpack writes |
| Packing.UnpackExTextFilters | packed16/packed-string.c:162-168 | every character written is in the alphabet; without CONTAINS_DIGIT no digit, without CONTAINS_SPECIAL no '_' or '$', without CASE_SENSITIVE no upper case is written |
| Packing.CodeClasses | encoding.h:6-32 | an alphabet character is a digit, upper case or special exactly when its code is |
| Packing.UnpackExCodeFolded | packed16/packed-string.c:108-168 | a character ps_pack_ex accepts under some flags survives ps_unpack_ex under the same flags |
| Packing.UnpackExTextFolded | packed16/packed-string.c:108-168 | ps_unpack_ex under the same flags gives back exactly the folded text ps_pack_ex stored |
| Packing.PackExUnpackExRoundTrip | packed16/packed-string.c:88-173 | packing with ps_pack_ex and unpacking with ps_unpack_ex under the same length and flags gives the folded text |
| Access.Scan | packed16/packed-string.c:12-48 | ps_scan keeps lo and the codes of hi, keeps the length, and sets the flags ps_scan's per-code tests give over the first `length` codes |
| Access.ScanCodesFlagsSpec | packed16/packed-string.c:18-43 | those flags never include CASE_SENSITIVE; CONTAINS_DIGIT is set iff some code is a digit or an upper-case letter; CONTAINS_SPECIAL iff some code is '_' or '$' |
| Access.ScanMisflagsUpperCase | packed16/packed-string.c:21-22 | for the packed text "A", ps_pack sets CASE_SENSITIVE but ps_scan gives CONTAINS_DIGIT |
| Access.ScanAgreesWithoutUpperCase | packed16/packed-string.c:12-48 | on codes with no upper-case letter ps_scan's flags are the class flags ps_pack computes |
| Access.CodeFlagOfChar | packed16/packed-string.c:61-63 | the class flag of an alphabet character is the class flag of its code |
| Access.CodesFlagsOfPrefix | packed16/packed-string.c:57-63 | the class flags of the first n codes of an encoded text are the flags ps_pack accumulates over its first n characters |
| Access.CodesFlagsOfEncode | packed16/packed-string.c:57-63 | the class flags of an encoded text's codes are the flags ps_pack gives the text |
| Access.CodesFlagsRecoverPackFlags | packed16/packed-string.c:12-86 | the intended rescan, on a value ps_pack produced, recovers exactly the stored flags |
| Access.At | packed16/packed-string.c:183-188 | ps_at is UINT8_MAX exactly when the index is at or past the length, and otherwise the code at the index |
| Access.AccessorsReadContent | packed16/packed-string.c:183-202 | on a valid value ps_at, ps_first and ps_last read the content: entry `index`, the first and the last entry, UINT8_MAX past the end or when empty |
| Access.FirstLastAreAt | packed16/packed-string.c:183-202 | ps_first is ps_at(0) and ps_last is ps_at(length - 1) |
| Access.PackedCell.constructor | packed16/packed-string.h:241-246 | a mutable cell holding a packed string's two words |
| Access.PackedCell.Set | packed16/packed-string.c:175-181 | ps_set returns UINT8_MAX and changes nothing at or past the length; otherwise it returns sixbit, replaces that one code (its low two bits at slot 21), keeps every other code, and below index 20 keeps length and flags so ps_at reads the new code |
| Access.SetCodes | helper.h:105-121 | a write to one slot, in terms of the code sequence: the sequence with that one entry replaced |
| Comparing.ToLowerCode | encoding.h:34-44 | TO_LOWER_TABLE applied to a code is the lower-case code of a letter and the code itself otherwise |
| Comparing.EqualNocase | packed16/packed-string.c:208-252 | ps_equal_nocase as written: true on ps_equal_nometa, false on different lengths, otherwise the folded codes 0..9 and 11..length-1 agree and code 10 is read from (a.lo, b.lo) for both operands |
| Comparing.Folded | encoding.h:34-44 | a code sequence with TO_LOWER_TABLE applied to every entry |
| Comparing.NocaseEqualFolded | packed16/packed-string.c:208-252 | the intended case-insensitive equality holds exactly when the folded sequences are equal, and is reflexive, symmetric and transitive |
| Comparing.NocaseAsWrittenIntended | packed16/packed-string.c:216-251 | off the fast path, and whenever code 10 folds equal, ps_equal_nocase agrees with the intended case-insensitive equality of the contents |
| Comparing.NocaseFastPathIgnoresLength | packed16/packed-string.c:210 | "a" and "a0" have the same payload words, so ps_equal_nocase calls them equal, though their contents differ |
| Comparing.NocaseSkipsCode10 | packed16/packed-string.c:231-232 | two 11-code values that agree up to code 9 and differ at code 10 after folding are called equal by ps_equal_nocase |
| Comparing.CompareWordsAntisymmetric | packed16/packed-string.c:254-301 | ps_compare, with its word comparisons and the length difference as tie-break, changes sign when the operands are swapped |
| Comparing.LexCompare | packed16/packed-string.h:435-445 | the intended lexicographic order on code sequences returns -1, 0 or 1 |
| Comparing.LexCompareSpec | packed16/packed-string.h:435-445 | it is 0 exactly on equal sequences and changes sign when the operands are swapped |
| Comparing.LexCompareTransitive | packed16/packed-string.h:435-445 | it is transitive |
| Comparing.LexCompareFirstDifference | packed16/packed-string.h:435-445 | it is decided by the first position where the sequences differ |
| Comparing.CompareNotLexicographic | packed16/packed-string.c:266-285 | ps_compare orders the contents [10, 11] after [11, 10], because it compares the lo words as integers and the first code sits in the lowest bits, while the lexicographic order puts it first |
| Comparing.CompareTieNotTransitive | packed16/packed-string.c:254-301 | for the codes [0,1], [1] and [1,0], ps_compare puts the first before the second and ties the second with the third (equal payloads), yet puts the first after the third, so its ties are not a consistent weak order |
| Comparing.CompareIgnoresTrailingZeroCodes | packed16/packed-string.c:256 | ps_compare calls "a" and "a0" equal through the ps_equal_nometa fast path, while the lexicographic order puts "a" first |
| Searching.WindowContent | helper.h:163-203 | for valid values, the code window ps_is_at compares at idx is exactly the slice of the first content against the second content |
| Searching.IsAtContent | helper.h:163-203 | the corrected ps_is_at on valid values is defined everywhere and is the slice test at idx, false when the window passes the end |
| Searching.IsAtAsWrittenWindow | helper.h:163-203 | ps_is_at as written, wherever it does not shift by 64, is the window comparison |
| Searching.StartsWithWindow | packed16/packed-string.c:307-329 | ps_starts_with, on a prefix whose lo holds nothing past its length, compares the prefix's codes with the first codes of ps |
| Searching.StartsWithIsAt | packed16/packed-string.c:307-329 | on such a prefix ps_starts_with is the corrected ps_is_at at index 0 |
| Searching.StartsWithContent | packed16/packed-string.c:307-329 | ps_starts_with on a valid value and a prefix with no stray codes holds exactly when the prefix's content is a prefix of the content |
| Searching.EndsWithDefinedAsWritten | packed16/packed-string.c:331-340 | on valid values ps_ends_with stays clear of the shift by 64 exactly unless both lengths are equal and at least 11 |
| Searching.EndsWithContent | packed16/packed-string.c:331-340 | ps_ends_with on valid values, wherever it is defined, holds exactly when the suffix fits and the content ends with it; the u8 wrap of `len_ps - len_suffix` for a longer suffix gives false |
| Searching.EndsWithLonger | packed16/packed-string.c:331-340 | a suffix longer than ps is never a suffix, though the start index wraps |
| Searching.StartsWithAtContent | packed16/packed-string.c:342-353 | ps_starts_with_at on valid values, wherever it is defined, holds exactly when the prefix fits at start and the slice there is the prefix's content |
| Searching.StartsWithAtDefinedAsWritten | packed16/packed-string.c:342-353 | for a fitting prefix, ps_starts_with_at stays clear of the shift by 64 exactly when start is above 0 or the prefix has at most 10 codes |
| Searching.EndsWithAtDefinedAsWritten | packed16/packed-string.c:355-366 | for a suffix that fits `end` codes before the end, ps_ends_with_at stays clear of the shift by 64 exactly when its index `len_ps - len_suffix - end` is above 0 or the suffix has at most 10 codes |
| Searching.EndsWithAtContent | packed16/packed-string.c:355-366 | ps_ends_with_at on valid values, wherever it is defined, holds exactly when the suffix fits and ends `end` codes before the end of the content |
| Slicing.SkipAsWritten | packed16/packed-string.c:368-379 | ps_skip as written: ps itself for start 0, the empty value past the length, otherwise length `len - start`, no flags and the content from start on; the stale metadata lands at code 20 - start |
| Slicing.SkipAsWrittenLeavesMetadata | packed16/packed-string.c:374 | a result whose code past its length holds the old metadata's bits is not in the one canonical form, so it is not word-equal to the packed text |
| Slicing.SkipLeavesCode | packed16/packed-string.c:374-375 | after the right shift, code 20 - start of the result is the value's old code 20 (its metadata's low bits) |
| Slicing.Skip | packed16/packed-string.c:368-379 | ps_skip with the evidently meant 56-bit mask: the same length, flags and content, and a clean value stays clean |
| Slicing.SkipMasked | packed16/packed-string.c:374-378 | the masked shift for 0 < start <= length: content from start on and clean in, clean out |
| Slicing.ShiftOut | helper.h:26-34 | shifting right by start codes drops the first start codes of the payload |
| Slicing.SkipContent | packed16/packed-string.c:368-379 | a payload shifted right by start codes with length `len - start` holds the content from start on |
| Slicing.SkipClean | packed16/packed-string.c:368-379 | with the metadata masked off, a clean value gives a clean result |
| Slicing.Trunc | packed16/packed-string.c:381-390 | ps_trunc: the empty value for length 0, ps itself from its length on, otherwise the given length, no flags and the first `length` codes; below 11 codes the codes 11..19 of hi are left as they were |
| Slicing.TruncContent | packed16/packed-string.c:381-390 | a result whose first `length` codes are ps's holds the first `length` codes as content |
| Slicing.TruncLeavesCodes | helper.h:51-61 | ps_limit below 11 codes leaves codes 11..19 of the result as they were |
| Slicing.TruncKeepsHighCodes | helper.h:51-61 | a value with a nonzero code 11, truncated to 5 codes, is not in canonical form |
| Slicing.LimitCleared | helper.h:51-61 | the evidently meant ps_limit: the first `length` codes kept and every code after them zero |
| Slicing.TruncCleared | packed16/packed-string.c:381-390 | ps_trunc on the corrected ps_limit: the same length, flags and content, and a clean result |
| Slicing.ClearedResult | helper.h:51-61 | codes cleared past the length make a valid, clean result with the kept prefix as content |
| Slicing.ShiftToStart | packed16/packed-string.c:398-403 | ps_substring's right shift by start codes moves code start + i to position i |
| Slicing.ShiftedSlice | packed16/packed-string.c:392-411 | after that shift the first `length` codes are the slice of the content from start |
| Slicing.Substring | packed16/packed-string.c:392-411 | ps_substring: the empty value for length 0 or a range past the end; otherwise the given length, no flags and the slice [start, start + length) as content, with codes 11..19 left from the shift below 11 codes |
| Slicing.SubstringContent | packed16/packed-string.c:392-411 | a payload whose first `length` codes are the shifted codes holds them as content |
| Slicing.SubstringCleared | packed16/packed-string.c:392-411 | ps_substring on the corrected ps_limit: the same length, flags and slice, and a clean result |
| Slicing.ConcatLength | packed16/packed-string.c:426 | ps_concat's length is the sum of the lengths capped at 20 |
| Slicing.Concat | packed16/packed-string.c:413-433 | ps_concat: a itself at 20 codes; otherwise the capped length, the union of the flags, for a clean a and a valid b the content of a followed by b's, cut at 20, and clean from clean |
| Slicing.ConcatShiftZeroWhenEmpty | packed16/packed-string.c:419-422 | ps_concat reaches ps_shl128 with a shift of 0, and so the undefined `lo >> 64`, exactly when a is empty |
| Slicing.ConcatGuarded | packed16/packed-string.c:413-433 | ps_concat with the shift skipped for an empty a: the same contract, now for every length up to 21 including 0 |
| Slicing.Join | packed16/packed-string.c:424-432 | or-ing a with b's codes shifted past a's, with the capped length and joined flags: a's content followed by b's |
| Slicing.ConcatContent | packed16/packed-string.c:413-433 | for a clean a and a valid b the or of the words holds a's content followed by b's, cut at 20 |
| Slicing.ConcatClean | packed16/packed-string.c:413-433 | two clean values join into a clean value |
| CodeSeqs.Payload | packed16/packed-string.h:394-397 | the twenty code positions below the metadata byte |
| CodeSeqs.PayloadKept | helper.h:143-146 | rewriting the metadata byte leaves the twenty payload codes as they were |
| CodeSeqs.ContentOfPayload | packed16/packed-string.h:178-200 | the content of a valid value is the first `length` payload codes |
| CodeSeqs.CleanPayload | packed16/packed-string.h:198-200 | a value is in canonical form exactly when it is valid and its payload codes from its length on are zero |
| CodeSeqs.ShiftRightCodes | helper.h:26-34 | a right shift by k codes keeps 22 positions |
| CodeSeqs.ShiftLeftCodes | helper.h:16-24 | a left shift by k codes puts k zero codes first and moves code j to j + k |
| CodeSeqs.ShrCodes | helper.h:26-34 | words whose every code is the shifted-right code of the input hold the input's code sequence shifted right by k |
| CodeSeqs.ShlCodes | helper.h:16-24 | the same for the left shift |
| CodeSeqs.ShiftRightBy | helper.h:26-34 | ps_shr128 by a nonzero multiple of 6 below 128 shifts the code sequence right by shift / 6 |
| CodeSeqs.ShiftLeftBy | helper.h:16-24 | ps_shl128 by a nonzero multiple of 6 below 128 shifts the code sequence left by shift / 6 |
| CodeSeqs.ShiftLeftCodesBy | helper.h:16-24 | ps_shl128 by 6k for 0 < k <= 21 shifts the code sequence left by k |
| CodeSeqs.ShiftLeftUnlessZero | helper.h:16-24 | a left shift by k codes that leaves the words alone for k = 0 |
| CodeSeqs.NoShift | helper.h:16-34 | shifting by zero codes changes nothing |
| CodeSeqs.OrCodes | packed16/packed-string.c:424-425 | or-ing two code sequences position by position |
| CodeSeqs.OrWords | packed16/packed-string.c:424-425 | or-ing the words or-s every code: six-bit slots do not interfere |
| CodeSeqs.LimitKeepsPrefix | helper.h:51-61 | ps_limit keeps the first `length` codes |
| CodeSeqs.LimitKeepsHi | helper.h:51-61 | below 11 codes ps_limit leaves codes 11..19 as they were |
| CodeSeqs.LimitTo | helper.h:51-61 | ps_limit on code sequences: the first `length` codes kept, and codes 11..19 kept when `length` is at most 10 |
| CodeSeqs.FillCodes | helper.h:268-278 | ps_fill's words hold `length` copies of the code followed by zeros |
| CodeSeqs.FillTo | helper.h:268-278 | ps_fill on code sequences: `length` copies of the code and zeros after them |
| CodeSeqs.WithMetadata | helper.h:143-146 | ps_insert_metadata keeps lo and the payload and gives the stated length and flags |
| CodeSeqs.OrWithMetadata | packed16/packed-string.c:516-519 | or-ing two pairs of words and writing metadata: the or of their payload codes, with the stated length and flags |
| CodeSeqs.Or3WithMetadata | packed16/packed-string.c:564-567 | the same for three pairs of words |
| CodeSeqs.WriteLo | helper.h:82-85 | ps_set_lo on code sequences: code i (below 10) replaced, the rest kept |
| CodeSeqs.WriteMid | helper.h:75-80 | ps_set_mid on code sequences: code 10 replaced, the rest kept |
| CodeSeqs.WriteHi | helper.h:87-91 | ps_set_hi on code sequences: code 11 + i replaced, the rest kept |
| CodeSeqs.ShiftLeftOr | packed16/packed-string.c:413-433 | or-ing a clean prefix with a sequence shifted past it gives the prefix followed by the shifted content, and zeros past the capped length when both are clean |
| Casing.MapPrefix | packed16/packed-string.c:440-457 | a code sequence with its first n codes looked up in a 64-entry table keeps its length |
| Casing.MapLo | packed16/packed-string.c:440-444 | the lo loop looks up codes 0 .. min(len, 10) - 1 in the table and leaves every other code alone |
| Casing.MapMid | packed16/packed-string.c:447-451 | the split code 10 is looked up and written back across lo and hi |
| Casing.MapHi | packed16/packed-string.c:454-458 | the hi loop looks up codes 11 .. 11 + count - 1, and changes nothing when count is 0 |
| Casing.HiLoopBoundWraps | packed16/packed-string.c:454 | below 11 codes the as-written bound `len - 11` wraps to more than 11 in a u8, so the hi loop reaches index 11, where ps_get_hi shifts by 68 bits |
| Casing.HiLoopBound | packed16/packed-string.c:454 | the evidently meant bound: the number of codes past code 10, none below 11 codes |
| Casing.MapCase | packed16/packed-string.c:435-466 | the shared body: the payload is the codes with the first `length` looked up in the table, the length kept and the given flags written |
| Casing.LowerCodes | encoding.h:34-44 | each code lower-cased, length kept |
| Casing.UpperCodes | encoding.h:46-56 | each code upper-cased, length kept |
| Casing.LowerTableCodes | encoding.h:34-44 | looking every code up in TO_LOWER_TABLE gives the lower-cased codes |
| Casing.UpperTableCodes | encoding.h:46-56 | looking every code up in TO_UPPER_TABLE gives the upper-cased codes |
| Casing.ToLower | packed16/packed-string.c:435-466 | ps_to_lower keeps the length, clears CASE_SENSITIVE and keeps the other flags, lower-cases the content of a valid value and keeps a clean value clean |
| Casing.ToUpper | packed16/packed-string.c:468-499 | ps_to_upper keeps the length, sets CASE_SENSITIVE and keeps the other flags, upper-cases the content of a valid value and keeps a clean value clean |
| Casing.MappedContent | packed16/packed-string.c:435-499 | the mapped payload of a valid value holds the mapped content |
| Casing.MappedClean | packed16/packed-string.c:435-499 | mapping only the codes below the length keeps the zeros past it |
| Padding.OrCodesCommute | packed16/packed-string.c:516-517 | or-ing code sequences commutes, so the order the words are or-ed in does not matter |
| Padding.PadLeftCodes | packed16/packed-string.c:513-517 | the value's codes shifted past p pad codes and or-ed with the filled run give the run followed by the value's codes, zeros after them for a clean value |
| Padding.PadRightCodes | packed16/packed-string.c:535-539 | a clean value or-ed with the run shifted past its codes gives the value's codes followed by the run, zeros after them |
| Padding.PadCenterCodes | packed16/packed-string.c:559-565 | the left run, the shifted value and the right run shifted past both give left run, codes, right run |
| Padding.CodesFlagsAppend | packed16/packed-string.c:57-63 | the class flags of a concatenation are the union of the parts' flags |
| Padding.CodesFlagsRepeat | packed16/packed-string.c:57-63 | the class flags of a run of one code are that code's flag, none for an empty run |
| Padding.PaddedFlags | packed16/packed-string.c:501-570 | with the intended per-code flag, padding a value whose flags match its content gives a result whose flags match its content |
| Padding.PadFlagMisflagsUpperCase | packed16/packed-string.c:506-508 | an upper-case pad code is flagged CONTAINS_DIGIT by the pads, while its class flag is CASE_SENSITIVE |
| Padding.TargetOf | packed16/packed-string.h:123 | the evidently meant target length: the requested one, capped at PACKED_STRING_MAX_LEN |
| Padding.PadLeft | packed16/packed-string.c:501-521 | ps_pad_left: ps itself when it already has `length` codes; otherwise the target length, the flags with ps_scan's flag for the pad code, and for a target up to 20 the content `length - len` pad codes followed by ps's, clean from clean |
| Padding.PadLeftWith | packed16/packed-string.c:510-520 | the fill, shift, or and metadata steps of ps_pad_left with the given flags |
| Padding.PadLeftResult | packed16/packed-string.c:510-520 | the words those steps build hold the pad run followed by the content, clean from clean |
| Padding.PadLeftIntended | packed16/packed-string.c:501-521 | ps_pad_left with the target capped at 20 and the intended class flag: the same content, now for every target length |
| Padding.PadRight | packed16/packed-string.c:523-543 | ps_pad_right: ps itself when it already has `length` codes; otherwise the target length, the flags with ps_scan's flag for the pad code, and for a clean ps and a target up to 20 the content followed by the pad codes, clean |
| Padding.PadRightJoin | packed16/packed-string.c:532-542 | the or and metadata steps of ps_pad_right with the given flags |
| Padding.PadRightResult | packed16/packed-string.c:532-542 | the words those steps build hold the content followed by the pad run, clean from clean |
| Padding.PadRightIntended | packed16/packed-string.c:523-543 | ps_pad_right with the target capped at 20, the intended flag, and the shift skipped for an empty value |
| Padding.PadCenter | packed16/packed-string.c:545-570 | ps_pad_center: ps itself when it already has `length` codes; otherwise the target length, the flags with ps_scan's flag, and for a clean ps and a target up to 20 floor(pad / 2) pad codes, the content, then the rest of the pad, clean |
| Padding.PadCenterWith | packed16/packed-string.c:554-569 | the fill, shift, or and metadata steps of ps_pad_center with the given flags |
| Padding.PadCenterResult | packed16/packed-string.c:554-569 | the words those steps build hold left run, content and right run, clean from clean |
| Padding.PadCenterZeroFrom | packed16/packed-string.c:554-569 | the three or-ed sequences hold left run, codes, right run and zeros after them |
| Padding.PadCenterIntended | packed16/packed-string.c:545-570 | ps_pad_center with the target capped at 20, the intended flag and a one-code pad handled |
| Padding.PadCenterWithIntended | packed16/packed-string.c:554-569 | the steps of the corrected ps_pad_center for every target up to 20 |
| Finding.IndexFrom | packed16/packed-string.h:587-597 | the reference search: -1 or the least index at or after start holding the code, with no earlier hit |
| Finding.LastIndex | packed16/packed-string.h:606 | the reference backward search: -1 or the greatest index holding the code |
| Finding.IndexFromUnique | packed16/packed-string.h:587-597 | any index with the least-hit property is the reference search's answer |
| Finding.LastIndexUnique | packed16/packed-string.h:606 | any index with the greatest-hit property is the reference backward search's answer |
| Finding.IndexFromPrefix | helper.h:205-234 | a search over 20 slots, cut to the first n, gives the hit if it is below n and -1 otherwise |
| Finding.FindFromSix | packed16/packed-string.c:585-592 | ps_find_from_six as written: -1 for a code of 64 or more or a start at or past the length, otherwise an index from start up to 19 holding the code, not bounded by the length |
| Finding.FindSix | packed16/packed-string.c:576-583 | ps_find_six: -1 for a code of 64 or more or an empty value, otherwise an index up to 19 holding the code |
| Finding.FindSixIsFromZero | packed16/packed-string.c:576-592 | ps_find_six is ps_find_from_six from 0 |
| Finding.FindSixAbsent | packed16/packed-string.c:576-583 | on a clean value of 1 to 19 codes that lacks the code, ps_find_six returns -1, except for code 0, where it returns the length, an index past the end |
| Finding.FirstFreeSlot | helper.h:205-234 | ps_find from 0 on such a value finds code 0 first at the length |
| Finding.FindFromSixAgrees | packed16/packed-string.c:585-592 | a hit below the length is the first occurrence in the content, and on a clean value every search for a nonzero code agrees with the reference |
| Finding.FindFromSixIntended | packed16/packed-string.c:585-592 | the evidently meant search: -1 or an index below the length |
| Finding.FindFromSixIntendedContent | packed16/packed-string.c:585-592 | on a valid value the evidently meant search is the reference search over the content |
| Finding.FindLastSix | packed16/packed-string.c:594-601 | ps_find_last_six: -1 or an index below the length holding the code |
| Finding.FindLastSixContent | packed16/packed-string.c:594-601 | on a valid value ps_find_last_six is the last occurrence in the content |
| Finding.ContainsSix | packed16/packed-string.c:603-610 | ps_contains_six is false for a code of 64 or more and for an empty value |
| Finding.ContainsSixContent | packed16/packed-string.c:603-610 | on a valid value ps_contains_six holds exactly when the code occurs in the content, that is when ps_find_last_six finds it |
| Finding.Contains | packed16/packed-string.c:612-624 | ps_contains on valid values holds exactly when the pattern's content occurs somewhere in the content |
| Finding.ContainsAt | packed16/packed-string.c:618-621 | one turn of ps_contains's loop: a hit is an occurrence, and a miss extends the range of starts with none |
| Finding.NoOccurrenceWhenLonger | packed16/packed-string.c:616 | a pattern longer than the value never occurs in it |
| Finding.NoneAtAll | packed16/packed-string.c:618-623 | no occurrence at any start up to n - m means no occurrence |
| Finding.IsValidIdentifierContent | packed16/packed-string.c:719-727 | on a clean value ps_is_valid_identifier holds exactly when the content is non-empty and does not start with a digit; the empty value fails because its code 0 is the digit '0' |
| Locking.RotHi | packed16/packed-string.c:671-672 | the hi word of ps_lock's 123-bit left rotation stays within the low 59 bits |
| Locking.UnrotHi | packed16/packed-string.c:697-700 | the hi word of ps_unlock's right rotation stays within the low 59 bits |
| Locking.PayloadOf | packed16/packed-string.c:659-668 | `hi & mask_hi` stays within the low 59 bits |
| Locking.Rotation | packed16/packed-string.c:662 | the rotation amount, the key's length, is at most 31 |
| Locking.Lock | packed16/packed-string.c:658-682 | ps_lock gives the empty value for a key of length 0 |
| Locking.Unlock | packed16/packed-string.c:684-713 | ps_unlock gives the empty value for a key of length 0 |
| Locking.UnlockLock | packed16/packed-string.c:658-713 | ps_unlock with the same non-empty key undoes ps_lock: the value comes back bit for bit |
| Locking.LockKeepsLength | packed16/packed-string.c:665-681 | with a non-empty key, ps_lock and ps_unlock keep the length field |
| Locking.RotatedLength | packed16/packed-string.c:665-675 | the rotations put the saved length field back |
| Locking.KeyXorTwice | packed16/packed-string.c:678-692 | xor-ing with the key's masked words twice gives the value back |
| Locking.RotateBack | packed16/packed-string.c:670-708 | the right rotation of ps_unlock undoes the left rotation of ps_lock |
| Locking.UnrotLoBack | packed16/packed-string.c:670-706 | the lo word comes back after a rotation left and right by 1..31 |
| Locking.UnrotHiBack | packed16/packed-string.c:670-702 | the low 59 bits of hi come back after a rotation left and right by 1..31 |
| RobinHood.Fingerprint | hash-table/ps-robinhood.h:34-37 | the stored fingerprint is never 0 (0 marks an empty slot) and is the low 16 bits of the hash whenever those are nonzero |
| RobinHood.Home | hash-table/ps-robinhood.h:79-81 | a key's ideal slot, `hash & mask`, is inside the table |
| RobinHood.ProbeDistance | hash-table/ps-robinhood.h:39-41 | the probe distance of a slot from an ideal slot is below the capacity, and stepping that many slots forward from the ideal slot lands on the slot |
| RobinHood.DistanceOfAt | hash-table/ps-robinhood.h:39-41 | the probe distance of the slot t steps past a home is t: the distance inverts the walk |
| RobinHood.PathOf | hash-table/ps-robinhood.h:104-116 | in a table kept in Robin Hood order, every slot between a stored key's home and its slot is full and holds a key at least as far from its own home |
| RobinHood.KeyOnPath | hash-table/ps-robinhood.h:129-146 | a stored key sits at its probe distance from its home, with a full path before it |
| RobinHood.ProbeStops | hash-table/ps-robinhood.h:132-143 | a probe that meets an empty slot, or a slot whose key is closer to its home than the probe has walked, proves the key absent (the early exit of lookup) |
| RobinHood.ProbeEnd | hash-table/ps-robinhood.h:132-143 | the same early exit, stated for the running probe state of the lookup loop |
| RobinHood.ProbeStep | hash-table/ps-robinhood.h:145-146 | moving on to the next slot keeps the probe invariant: the key, if present, is still ahead |
| RobinHood.ProbeFinds | hash-table/ps-robinhood.h:135-136 | a full slot holding the key is the key's entry, with its value |
| RobinHood.FingerprintOfKey | hash-table/ps-robinhood.h:135 | a stored key's slot carries the key's fingerprint, so the fingerprint test never rejects the key itself |
| RobinHood.FingerprintOfSlot | hash-table/ps-robinhood.h:135-140 | a slot failing the fingerprint-and-key test holds a different key whose fingerprint matches its own hash |
| RobinHood.RoomForOne | hash-table/ps-robinhood.h:75-77 | when size * 2 < capacity one more entry keeps the table at most half full and leaves a free slot |
| RobinHood.EmptySlot | hash-table/ps-robinhood.h:84-93 | a table with fewer entries than slots has an empty slot, so the insertion loop ends |
| RobinHood.PlaceOrder | hash-table/ps-robinhood.h:87-92 | writing an entry at its probe distance into an empty slot, or over a closer-to-home entry, keeps Robin Hood order |
| RobinHood.InsertEmpty | hash-table/ps-robinhood.h:87-92 | filling the empty slot ends the insertion with the new map, the key having been absent |
| RobinHood.InsertMatch | hash-table/ps-robinhood.h:95-98 | meeting the key updates its value in place, the key having been present |
| RobinHood.InsertSwap | hash-table/ps-robinhood.h:104-116 | swapping the carried entry with a richer one keeps every entry stored and the carried one still to place |
| RobinHood.InsertAdvance | hash-table/ps-robinhood.h:118-119 | stepping past a slot that is not the key and not closer to home keeps the insertion invariant and moves closer to the free slot |
| RobinHood.ShiftStart | hash-table/ps-robinhood.h:205-206 | removing a found key leaves a hole whose neighbours still satisfy the backward-shift invariant |
| RobinHood.ShiftStep | hash-table/ps-robinhood.h:220-222 | moving the next displaced entry back into the hole keeps the backward-shift invariant with the hole one slot on |
| RobinHood.ShiftOrder | hash-table/ps-robinhood.h:217-222 | the back-shifted entry is one slot closer to its home and the order around the moved hole still holds |
| RobinHood.ShiftEnd | hash-table/ps-robinhood.h:211-218 | stopping at an empty slot or an entry already at its home leaves a well-formed table without the key |
| RobinHood.RemoveOne | hash-table/ps-robinhood.h:226 | removing a present key shrinks the map by one, matching `size--` |
| RobinHood.Table.Write | hash-table/ps-robinhood.h:88-90 | a slot store changes that slot and no other |
| RobinHood.Table.Init | hash-table/ps-robinhood.h:47-60 | the new table is empty and well formed, its capacity is the least power of two at or above the request, and every slot is zeroed |
| RobinHood.Table.Clear | hash-table/ps-robinhood.h:69-72 | clearing zeroes every slot, empties the map and keeps the slot array and capacity |
| RobinHood.Table.Find | hash-table/ps-robinhood.h:123-148 | the probe finds the key exactly when the table holds it, and then at the key's slot |
| RobinHood.Table.FingerprintOfKeyAt | hash-table/ps-robinhood.h:135 | a fingerprint mismatch at a full slot rules the key out |
| RobinHood.Table.Contains | hash-table/ps-robinhood.h:123-148 | true exactly when the key is in the table |
| RobinHood.Table.Get | hash-table/ps-robinhood.h:150-177 | found exactly when the key is in the table, and then the value is the key's value |
| RobinHood.Table.Set | hash-table/ps-robinhood.h:74-121 | fails, changing nothing, exactly when size * 2 >= capacity; otherwise the map becomes the old map with key bound to value, size grows by one for a new key, and the table stays well formed and at most half full |
| RobinHood.Table.Place | hash-table/ps-robinhood.h:79-120 | the Robin Hood insertion loop leaves the slots storing the old map with key bound to value, and reports whether the key was new |
| RobinHood.Table.Commit | hash-table/ps-robinhood.h:91-97 | recording the new size restores the table invariant with the new map |
| RobinHood.Table.Delete | hash-table/ps-robinhood.h:179-228 | found exactly when the key was present; the map loses the key, size drops by one when found, and an absent key leaves every slot as it was |
| RobinHood.Table.ShiftBack | hash-table/ps-robinhood.h:205-223 | the backward-shift loop ends with a well-formed table once the last hole is emptied |
| RobinHood.Table.Vacate | hash-table/ps-robinhood.h:225-227 | emptying the final hole and `size--` restore the table invariant without the deleted key |
| TableKeys.GoldenMulUndone | hash-table/ps-robinhood.h:25 | the multiply by 0x9E3779B97F4A7C15 modulo 2^64 is undone by its modular inverse |
| TableKeys.GoldenMulInjective | hash-table/ps-robinhood.h:25 | so two different hi words never scramble to the same word |
| TableKeys.PsrhHashCollision | hash-table/ps-robinhood.h:24-32 | two packed-string keys collide in psrh_hash64 exactly when their folded words `lo ^ hi * golden` are equal: the three finalizer rounds lose nothing |
| TableKeys.FoldSameLo | hash-table/ps-robinhood.h:25 | keys with equal lo and different hi words fold to different words |
| TableKeys.FoldSameHi | hash-table/ps-robinhood.h:25 | keys with equal hi and different lo words fold to different words |
| TableKeys.PsrhOneWordApart | hash-table/ps-robinhood.h:24-32 | keys that differ in exactly one of their two words never collide in psrh_hash64 |
| TableKeys.CsrhHash64 | hash-table/cs-robinhood.h:22-29 | the byte loop up to the terminating NUL computes FNV-1a from the offset basis over exactly the string's bytes |
| TableKeys.FnvAppend | hash-table/cs-robinhood.h:24-27 | hashing a + b is hashing b from the state a leaves |
| TableKeys.FnvMulUndone | hash-table/cs-robinhood.h:26 | the multiply by the FNV prime modulo 2^64 is undone by its modular inverse |
| TableKeys.FnvStepInjective | hash-table/cs-robinhood.h:25-26 | one xor-then-multiply step is injective in the state and in the byte |
| TableKeys.FnvSuffix | hash-table/cs-robinhood.h:24-27 | running the same bytes from two states gives equal results exactly when the states are equal |
| TableKeys.CsrhCommonSuffix | hash-table/cs-robinhood.h:22-29 | a + c and b + c collide in csrh_hash64 exactly when a and b do |
| TableKeys.CsrhLastByte | hash-table/cs-robinhood.h:22-29 | strings equal but for their last byte never collide |
| TableKeys.NewPsrh | hash-table/ps-robinhood.h:47-60 | psrh_init gives an empty well-formed table of at least the requested capacity hashing keys with psrh_hash64 |
| TableKeys.NewCsrh | hash-table/cs-robinhood.h:44-57 | csrh_init gives an empty well-formed table of at least the requested capacity hashing keys with csrh_hash64 |
| Legacy.PackFlagsSpec | packed-string.c:327-344 | the root flags are under 8 and have CASE_SENSITIVE exactly for an upper-case letter, STARTS_WITH_DIGIT exactly for a leading digit and CONTAINS_SPECIAL exactly for `_` or `$` |
| Legacy.PackFlagsAgreeWithCharFlags | packed-string.c:308-309 | the case and special bits agree with packed16's flags; only bit 1 differs in meaning |
| Legacy.Pack | packed-string.c:293-352 | INVALID exactly for NULL, a character outside the alphabet or more than 20 characters; otherwise a value representing the string's codes under the root flags |
| Legacy.PackLoopNext | packed-string.c:304-319 | each pass stores the next character's code, leaves the other codes alone and updates the upper-case and special trackers |
| Legacy.PackLoopResult | packed-string.c:321-351 | the finished loop and the inserted metadata give a valid value representing the string |
| Legacy.PackThenUnpack | packed-string.c:382-395 | a packed string decodes back to the string, and its STARTS_WITH_DIGIT flag is set exactly when the string starts with a digit |
| Legacy.PackEx | packed-string.c:354-380 | INVALID unless there is a string of at least `length` alphabet characters and length <= 20; otherwise the metadata is (length, flags) and the codes are those of the first length characters, lower-cased unless CASE_SENSITIVE is set |
| Legacy.ExRejects | packed-string.c:366-370 | a character without a code among the first length rejects the call |
| Legacy.ExLoopResult | packed-string.c:360-379 | the finished loop leaves the folded prefix's codes, and with flags under 8 a value representing them |
| Legacy.ExCodesPrefix | packed-string.c:360-373 | the codes stored are the first length codes of the folded string |
| Legacy.RepackKeepsString | packed-string.c:364 | folding under the flags ps_pack computed changes nothing: upper case forces CASE_SENSITIVE |
| Legacy.PackExAgreesWithPack | packed-string.c:293-380 | pack_ex of a string with its own length and flags builds the same value as pack |
| Legacy.Unpack | packed-string.c:382-395 | false, writing nothing, exactly for a NULL buffer or a length field over 20; otherwise the text and a NUL are written and nothing past them |
| Legacy.UnpackEx | packed-string.c:397-408 | false, writing nothing, exactly for a NULL buffer, a length over 20 or an invalid value; otherwise the symbols of the first length codes and a NUL are written, the flags being unused |
| Legacy.WriteCodes | packed-string.c:401-406 | the loop writes the symbols of codes 0 .. length-1, then a NUL, and nothing past them |
| Legacy.WriteDecoded | packed-string.c:401-406 | the u8-indexed loop writes, at each index below length, the symbol of that code, and keeps every later byte, so it ends with exactly the text and a NUL |
| Legacy.CharAccessorsReadText | packed-string.c:417-439 | on a valid value ps_char_at, ps_first_char and ps_last_char read the decoded text, and NUL past the end or on an empty value |
| Legacy.CharAtOfPacked | packed-string.c:417-423 | on a packed string ps_char_at returns the string's character at the index, NUL past its end |
| Legacy.HasDigit | packed-string.c:814-850 | true exactly when the STARTS_WITH_DIGIT flag is set or a digit code is among codes 1 .. length-1 |
| Legacy.ScanLoDigits | packed-string.c:831-834 | the lo loop finds a digit code only where there is one and, when it does not, none lies below min(length, 10) |
| Legacy.ScanHiDigits | packed-string.c:842-847 | when no digit code lies before code 11, the hi loop returns true exactly when a digit code lies among codes 11 to length-1 |
| Legacy.HasDigitOfPacked | packed-string.c:814-850 | on a packed string the answer is whether the string contains a digit |
| Legacy.HasDigitByCode | packed-string.c:831-847 | reading every code from 0 instead of the flag: true exactly when a digit code lies before the length |
| Legacy.DigitInText | packed-string.c:831-847 | on a valid value that is whether the decoded text contains a digit |
| Legacy.Validate | packed-string.c:852-885 | accepts exactly a length up to 20 whose unused lo bits are zero (length up to 10) or whose unused hi payload bits are zero (length over 10) |
| Legacy.LoClear | packed-string.c:858-861 | the lo mask test passes exactly when lo holds nothing past the length |
| Legacy.HiClear | packed-string.c:868-876 | the hi mask test passes exactly when no code from the length to 19 is set |
| Legacy.CodesAtMost | packed-string.c:878-882 | the character loop never rejects: a six-bit code is never above 63 |
| Legacy.ValidateIntended | packed-string.c:852-885 | the intended check accepts exactly the clean values |
| Legacy.CleanIsAccepted | packed-string.c:852-885 | every clean value passes ps_validate, and above 10 codes ps_validate accepts exactly the clean values |
| Legacy.ValidateMissesHi | packed-string.c:858-861 | an empty value with a stray code in hi passes ps_validate though it is not clean |
| Legacy.IsValidIdentifier | packed-string.c:887-905 | true exactly when the STARTS_WITH_DIGIT flag is clear and the length is nonzero (the two code tests cannot fail) |
| Legacy.IdentifierOfPacked | packed-string.c:887-905 | on a packed string that is exactly a non-empty string not starting with a digit |
| Legacy.IsValidIdentifierByCode | packed-string.c:887-905 | reading code 0 instead of the flag: true exactly for a non-empty value whose first code is not a digit |
| Legacy.IdentifierByCodeText | packed-string.c:895-896 | on a valid value that is whether the decoded text is non-empty and does not start with a digit |
| Legacy.FlagLostBySubstring | packed-string.c:626-627 | the value "1" with no flags, as ps_substring builds it, has a digit and a leading digit, yet ps_has_digit answers false and ps_is_valid_identifier true |
| Legacy.ShiftRightShort | packed-string.c:68-71 | for a shift of 1 to 10 whole codes ps_shr moves every code down by that many, filling with zero codes |
| Legacy.ShiftLeftShort | packed-string.c:63-66 | for a shift of 1 to 10 whole codes ps_shl moves every code up by that many, filling with zero codes |
| Legacy.ShiftToStart | packed-string.c:613-617 | a start of at most 10 moves code start to position 0 |
| Legacy.Substring | packed-string.c:605-630 | empty for a zero length or a window past the end; otherwise the length is the window's, the flags are cleared, and on a valid value the content is the window |
| Legacy.SubstringShiftPastWord | packed-string.c:613-617 | a window starting at code 11 passes the guard yet makes ps_shr shift by 66 |
| Legacy.Concat | packed-string.c:632-652 | a full a is returned as is; otherwise the length is the capped sum, the flags the union, and a clean a and a valid b give their concatenated content |
| Legacy.ConcatShiftOutsideWord | packed-string.c:638-641 | a shorter than 20 makes ps_shl shift by 0 or by 64 or more exactly when its length is 0 or at least 11 |

## Left out

- Helper.Shl: specified only for shifts that are whole multiples of 6 (every shift the string operations make), because the general 128-bit bit-level statement runs out of resource.
- Helper.Shr: specified only for shifts that are whole multiples of 6, for the same reason.
- Helper.Shl128: specified only for shifts that are whole multiples of 6, for the same reason; shifts of 0 and 64, undefined in C, are excluded.
- Helper.Shr128: specified only for shifts that are whole multiples of 6, for the same reason; a shift of 0, undefined in C, is excluded.
- Access.Scan: a length field above 22 is excluded, including the sentinel lengths 29–31, because ps_get_hi then shifts by 68 or more (undefined in C).
- Finding.Contains: a length field above 21 is excluded for the same reason. It also uses the corrected ps_is_at. At index 0, with a pattern of 11 or more codes, the C shifts by 64 (helper.h:187-192), which C leaves undefined.
- Searching.EndsWith, Searching.StartsWithAt, Searching.EndsWithAt: use ps_is_at as written. They are defined only where it does not shift by 64. Searching.EndsWithDefinedAsWritten, Searching.StartsWithAtDefinedAsWritten and Searching.EndsWithAtDefinedAsWritten give that domain in terms of the lengths.
- Padding.PadLeft: a target length of 22 or more is not modelled. For targets 22–31 the C returns a value whose length field is 22–31, which the five-bit field holds but which is not a valid value (29–31 are the sentinel lengths); its contents are then not specified here. A target of 32 or more wraps the length field, and a pad of 22 or more codes makes ps_fill and ps_shl128 shift one 64-bit word by 64 or more, which C leaves undefined.
- Padding.PadRight: the same limit. Padding an empty value is also excluded, because the C then shifts by 0 (undefined).
- Padding.PadCenter: the same limit. A pad of one code is also excluded, because the C then shifts the left part by 0 (undefined).
- Slicing.Concat: an empty a is excluded, because the C then calls ps_shl128 with shift 0 (undefined). Slicing.ConcatGuarded is the corrected operation and covers it.
- Slicing.Skip, Slicing.SkipAsWritten, Slicing.Trunc, Slicing.Substring: a start or a length of 22 or more is excluded. It is possible only with an invalid length field, and it makes the C shift by 128 bits or more.
- Casing.ToLower, Casing.ToUpper: these use the intended hi-loop bound max(0, len − 11). The as-written bound wraps and reaches an undefined shift; Casing.HiLoopBoundWraps records it. A length field above 21 is excluded for the same reason.
- Comparing.EqualNocase, Comparing.CompareWordsAntisymmetric: a length field above 22 (above 21 for the antisymmetry) is excluded off the fast path, because the C then shifts hi by 64 or more.
- Legacy.Substring: a start of 11 or more is excluded, because the root ps_shr then shifts by 64 or more (undefined in C). Legacy.SubstringShiftPastWord records that such a call gets past the guard.
- Legacy.Concat: len_a of 0 or 11–19 is excluded, because the root ps_shl then shifts by 0 or by 64 or more. Legacy.ConcatShiftOutsideWord records this.
- Legacy.HasDigit, Legacy.IsValidIdentifier: a length field above 22 is excluded, because the C then shifts hi by 64 or more.
- Access.PackedCell.Set, Helper.SetNSixbit: the new words are specified only for a sixbit below 64, the domain the header documents ("@param sixbit New sixbit"). A larger value spills its high bits into the neighbouring code or into hi (helper.h:105-121); that spill is not described.
- Locking.Lock, Locking.Unlock: their own contracts state only the zero-key case. The round trip is in Locking.UnlockLock, and the kept length field is in Locking.LockKeepsLength.
- RobinHood.Table: `& mask` is modelled as `% capacity`, which is the same thing for a power-of-two capacity.
- RobinHood.Table: allocation failure in psrh_init/csrh_init is not modelled; the constructor always succeeds. psrh_free and csrh_free are not modelled: Dafny has no deallocation.
- RobinHood.Table: a NULL key of the C-string table is modelled as the empty string, and strcmp as equality of the byte sequences before the NUL.
- RobinHood.Table: csrh_set stores the caller's `char*` itself, not a copy (hash-table/cs-robinhood.h:86, 105). The model keys the table by the bytes' value, so it does not capture aliasing: in C, a key that the caller changes or frees after insertion changes what the slot holds and can leave the entry off its probe path.
- RobinHood.Table.Init: the capacity is the least power of two at or above the request, for any request. In C, `cap <<= 1` wraps to 0 for a request above 2^63 and the loop then never ends (hash-table/ps-robinhood.h:48-49, hash-table/cs-robinhood.h:45-46); that case is not modelled.
- RobinHood.Table: the probe loops assume the table is at most half full, which ps_set's size check keeps. Loading a table past that from outside is not modelled.
- ps_mask (helper.h:36-49, packed-string.c:73-86) is not modelled. Nothing calls it, and its start/length contract is unclear.
- The digit mask that root ps_has_digit builds (packed-string.c:822-828) is never read. It is not modelled.
- All psd_* debug and formatting functions (packed16/packed-string.c:733-1119, packed-string.c:911-1297) are not modelled. They only format text into buffers.
- These functions have no contract of their own and are stated through the lemmas about them:
  - the flag tests ps_is_case_sensitive, ps_contains_digit and ps_contains_special (packed16/packed-string.h:305-327);
  - ps_is_empty and ps_from;
  - ps_first and ps_last (Access.First, Access.Last), stated through Access.AccessorsReadContent and Access.FirstLastAreAt;
  - root ps_char_at, ps_first_char and ps_last_char (Legacy.CharAt, Legacy.FirstChar, Legacy.LastChar), stated through Legacy.CharAccessorsReadText and Legacy.CharAtOfPacked;
  - the hashes ps_hash32, ps_hash64 and ps_table_hash (Packed.Hash64Collision, Packed.Hash32OfHash64, Packed.XorLength);
  - ps_starts_with and the window tests (Searching.StartsWithContent and the lemmas after it);
  - ps_compare (Comparing.CompareWords, packed16/packed-string.c:254-301), stated through Comparing.CompareWordsAntisymmetric, Comparing.CompareNotLexicographic, Comparing.CompareIgnoresTrailingZeroCodes and Comparing.CompareTieNotTransitive;
  - psrh_hash64 (TableKeys.PsrhHash64, hash-table/ps-robinhood.h:24-32), stated through TableKeys.PsrhHashCollision and TableKeys.PsrhOneWordApart.
- Root ps_make, ps_equal_nocase, ps_compare, ps_starts_with, ps_ends_with, ps_starts_with_at, ps_ends_with_at, ps_to_lower, ps_to_upper, ps_contains, ps_hash32 and ps_hash64 (packed-string.c:285-291, 445-603, 654-722, 764-808) are not modelled separately. Their text is the same as the packed16 functions modelled in Packed, Comparing, Searching, Casing, Finding and Slicing, on the same layout.
- Root ps_is_at (packed-string.c:176-216) is not modelled separately. It differs from helper.h only by a `bits == 64` case that cannot arise, because bits is a multiple of 6.
- Root ps_find_char, ps_find_char_from, ps_find_last_char and ps_contains_char (packed-string.c:724-762) are not modelled separately. Each first converts its character with ps_char_to_sixbit and answers -1 or false for a character outside the alphabet. It then runs the same helper search as packed16's ps_find_six, ps_find_from_six, ps_find_last_six and ps_contains_six.
- Root ps_sixbit_at (packed-string.c:410-415) is Access.At.
- Root ps_hash_for_table (packed-string.h:558-561) is packed16's ps_table_hash.

## Findings

| source | as written | input that shows it | evidently intended | confidence | as-written member | corrected member |
|---|---|---|---|---|---|---|
| packed16/packed-string.c:21-22 | ps_scan sets CONTAINS_DIGIT for codes 36–61 (upper case) and never sets CASE_SENSITIVE | the value ps_pack builds from "A": ps_scan gives CONTAINS_DIGIT, ps_pack gave CASE_SENSITIVE | the flags ps_pack computes from the same codes | not executed | Access.ScanMisflagsUpperCase | Access.CodesFlagsRecoverPackFlags |
| packed16/packed-string.c:231-232 | code 10 of both operands is read from `a.lo` and `b.lo`, so the two are always equal | "aaaaaaaaaaa" and "aaaaaaaaaab" compare equal ignoring case | compare code 10 of a with code 10 of b | not executed | Comparing.NocaseSkipsCode10 | Comparing.NocaseEqualFolded |
| packed16/packed-string.c:210 | the payload-equality fast path ignores the length field | "a" and "a0" (codes [10] and [10, 0]) are equal ignoring case | different lengths are never equal | not executed | Comparing.NocaseFastPathIgnoresLength | Comparing.NocaseEqualFolded |
| packed16/packed-string.c:256 | ps_compare's fast path returns 0 for equal payloads of different lengths | ps_compare("a", "a0") == 0 | the shorter prefix comes first (-1) | not executed | Comparing.CompareIgnoresTrailingZeroCodes | Comparing.LexCompareSpec |
| packed16/packed-string.c:256 | with the fast path, ties are not transitive with the masked comparison | codes [0,1] < [1], [1] ties [1,0], but [0,1] > [1,0] | a total order | not executed | Comparing.CompareTieNotTransitive | Comparing.LexCompareTransitive |
| packed16/packed-string.c:266-285 | masked words are compared as integers, so the last differing code decides | ps_compare("ab", "ba") == 1 | the lexicographic order described at packed16/packed-string.h:435-445 | not executed | Comparing.CompareNotLexicographic | Comparing.LexCompareTransitive |
| helper.h:187-192 | in the boundary case the low mask is `(1 << lo_bits) - 1` with lo_bits = 64 when idx = 0 | ps_contains or ps_ends_with with a pattern of 11 or more codes at index 0 | a full-word mask when lo_bits is 64 | not executed | HelperScan.IsAtAsWrittenUndefinedAtZero | HelperScan.IsAtWindow |
| packed16/packed-string.c:374 | the mask `0x00FFFFFFFFFFFFFFFFULL` has 18 hex digits, two zeros then sixteen F's, so its value is 2^64−1 and it keeps the metadata byte | skipping 10 codes of a 15-code value leaves bits of the old length field as code 10 of the 5-code result | clear everything above the remaining codes | not executed | Slicing.SkipAsWrittenLeavesMetadata | Slicing.Skip |
| helper.h:51-61 | ps_limit to 10 codes or fewer clears lo only and keeps hi's codes | ps_trunc to 5 codes of a value whose code 11 is set | clear every code at or past the new length | not executed | Slicing.TruncKeepsHighCodes | Slicing.TruncCleared |
| packed16/packed-string.c:419-422 | ps_concat calls ps_shl128 with shift len_a * 6, which is 0 for an empty a | ps_concat(ps_empty(), b) | return b | not executed | Slicing.ConcatShiftZeroWhenEmpty | Slicing.ConcatGuarded |
| packed16/packed-string.c:454 | `l = len - 11` is a u8 and wraps below 11 codes | ps_to_lower of a 5-code value runs the hi loop to index 250 | max(0, len − 11) iterations | not executed | Casing.HiLoopBoundWraps | Casing.HiLoopBound |
| packed16/packed-string.c:506-508 | the pad flag uses ps_scan's rule, marking an upper-case pad as a digit | ps_pad_left with pad code 36 ('A') | CASE_SENSITIVE for an upper-case pad | not executed | Padding.PadFlagMisflagsUpperCase | Padding.PaddedFlags |
| packed16/packed-string.c:576-592 | ps_find is bounded by 20 codes, not by the length | ps_find_six(ps, 0) on a clean 5-code value without a '0' returns 5 | -1 when the code does not occur | not executed | Finding.FindSixAbsent | Finding.FindFromSixIntendedContent |
| packed-string.c:858-861 | for a length of 10 or less only `lo` is checked | the empty value with a stray bit in `hi` (lo 0, hi 4) passes | reject any code bit past the length | not executed | Legacy.ValidateMissesHi | Legacy.ValidateIntended |
| packed-string.c:613-617 | a start of 11 or more passes the guard and ps_shr shifts by 66 or more | ps_substring of a 20-code value at start 11, length 1 | shift through both words | not executed | Legacy.SubstringShiftPastWord | Slicing.Substring |
| packed-string.c:638-641 | ps_shl is applied with len_a * 6, which is 0 or at least 64 for len_a 0 or 11–19 | ps_concat of an 11-code a | a 128-bit shift | not executed | Legacy.ConcatShiftOutsideWord | Slicing.ConcatGuarded |
| packed-string.c:626-627 | ps_substring clears the flags, so STARTS_WITH_DIGIT is lost and ps_has_digit no longer sees code 0 | the 1-code substring "1" of "1a" at start 0: ps_has_digit false, ps_is_valid_identifier true | read code 0 instead of the flag | not executed | Legacy.FlagLostBySubstring | Legacy.HasDigitByCode |
