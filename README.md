# LuzFaltex core: the multi-value dictionary and the social security number

This project models two components of the LuzFaltex core libraries and proves
what they promise.

**`MultiValueDictionary<TKey, TValue>`** maps each key to a collection of values.
Each collection is reached through one shared `InnerCollectionView` object.
- `Dictionary.MultiValueDictionary` is a class. Its `dict` field holds the
  view objects, and its `version` field is the `_version` counter, with C#
  `int` wrap-around.
- `InnerView.InnerCollectionView` is a class. Its `items` field holds the
  contents of the backing collection.
- The backing collection is a `List` (ordered, duplicates kept, the first
  copy removed) or a `HashSet` (adding is idempotent). `Backing.Kind` makes
  that choice.
- The abstract state is `Contents()`: key to contents, a `MultiMap.Entries`.
  Every mutating method is proved against a function of module `MultiMap`.
  The lemmas beside those functions state what the dictionary promises:
  key counts, pair counts, what happens to other keys, idempotence, and
  removal of the first copy only.
- The sharing of views is part of the contracts. The indexer and
  `TryGetValue` return the live view object itself. `Add` and `AddRange`
  keep every earlier view as its key's view. A range passed to `AddRange` is
  a value, so a range that is itself a view of the dictionary is not
  modelled (see "Left out").

**`SocialSecurityNumber`** packs a US social security number into one `int`
as `area << 21 | group << 14 | serial`.
- The bit operations are modelled on 32-bit patterns, in `Int32Bits`.
- The accessors, the parts constructor and the named numbers are in `Ssn`,
  with a proof that packing and unpacking are inverse.
- The nine-digit array from `AsArray` is built by a method with a loop,
  proved against a specification function.
- The five text formats are modelled with .NET's `D<n>` number format
  (`Decimal`).
- The recogniser for `^\s*(\d{3})[ -]?(\d{2})[ -]?(\d{4})\s*$` is a hand-written
  matcher (`SsnInput`). A `Layout` datatype says independently which texts
  it accepts, and lemmas prove the matcher both complete and sound for that
  description.
- Validation is in `SsnValidate`, parsing in `SsnParse` and equality in
  `SsnEquality`.
- There are round trips in both directions: a valid number is written out
  and parsed back, and a parsed text is written and parsed again.

The null arguments of C# are `Option.None`. Exceptions are `Result.Throws` or
`Outcome.Fails`, carrying the .NET exception's name.

Where the tests and the code disagree, the model follows the code:
- The `SSN_Deserialize_Successful` test rows for `Default` and `SampleNumber`
  expect those texts to parse. The code refuses them, because both numbers
  fail `Validate`. `SsnParse.NamedNumberParses` proves the refusal.
- The dictionary does not keep every collection non-empty. `AddRange` with an
  empty range inserts the key with an empty collection
  (`MultiMap.AddEmptyRangeLeavesEmptyCollection`).

## Model

Paths are relative to the repository root.

| member | source | states |
|---|---|---|
| Backing.AddSpec | src/LuzFaltex.Core.Collections/MultiValueDictionary/MultiValueDictionary.InnerCollectionView.cs:62-63 | adding to a collection leaves exactly the old elements plus the new one; a list appends it (one more copy in the multiset); a set grows only when the element is new and stays duplicate-free |
| Backing.AddToSetIdempotent | src/LuzFaltex.Core.Collections/MultiValueDictionary/MultiValueDictionary.InnerCollectionView.cs:62-63 | adding the same element to a set twice is adding it once |
| Backing.AddAllToList | src/LuzFaltex.Core.Collections/MultiValueDictionary/MultiValueDictionary.cs:210-213 | adding a range to a list appends the whole range in iteration order |
| Backing.AddAllSnoc | src/LuzFaltex.Core.Collections/MultiValueDictionary/MultiValueDictionary.cs:210-213 | adding a range one element longer is adding that element after the range |
| Backing.AddAllElements | src/LuzFaltex.Core.Collections/MultiValueDictionary/MultiValueDictionary.cs:210-213 | for either kind, a range add holds exactly the old elements and the range's elements, and a set stays duplicate-free |
| Backing.AddRepeated | tests/LuzFaltex.Core.Collections.Tests/MultiValueDictionary/MultiValueDictionaryTests.Add.cs:91-118 | adding one value n times gives n copies in a list and exactly one copy in a set |
| Backing.RemoveFirstSpec | src/LuzFaltex.Core.Collections/MultiValueDictionary/MultiValueDictionary.InnerCollectionView.cs:66-67 | removal takes exactly one copy of the value when present (the multiset loses one, the length drops by one) and changes nothing when absent |
| Backing.RemoveFromSet | src/LuzFaltex.Core.Collections/MultiValueDictionary/MultiValueDictionary.InnerCollectionView.cs:66-67 | removing from a set leaves every other element, drops the value, and stays duplicate-free |
| MultiMap.Bump | src/LuzFaltex.Core.Collections/MultiValueDictionary/MultiValueDictionary.cs:185 | `_version++` adds one below `int.MaxValue` and wraps to `int.MinValue` there |
| MultiMap.BumpNAdds | src/LuzFaltex.Core.Collections/MultiValueDictionary/MultiValueDictionary.cs:157-160 | below the wrap-around point, n increments from 0 give n |
| MultiMap.AddPairSpec | src/LuzFaltex.Core.Collections/MultiValueDictionary/MultiValueDictionary.cs:174-186 | after `Add(k, v)` the key holds the value; the key count grows by one exactly when the key was absent; no other key changes; collections keep their kind; a list-backed key gets `v` appended and the pair count grows by one |
| MultiMap.AddPairToSetIdempotent | tests/LuzFaltex.Core.Collections.Tests/MultiValueDictionary/MultiValueDictionaryTests.Add.cs:91-118 | adding a pair to a set-backed dictionary again changes nothing, so a new key holds the value exactly once |
| MultiMap.AddRangeSpec | src/LuzFaltex.Core.Collections/MultiValueDictionary/MultiValueDictionary.cs:199-216 | after `AddRange(k, vs)` the key is present even for an empty range; it holds exactly the earlier values and those of `vs`; a list-backed key gets `vs` appended in order and the pair count grows by `vs`'s length; no other key changes |
| MultiMap.AddEmptyRangeLeavesEmptyCollection | src/LuzFaltex.Core.Collections/MultiValueDictionary/MultiValueDictionary.cs:204-215 | an empty range on an absent key maps it to an empty collection, so "no empty collection" is not an invariant |
| MultiMap.RemovePairSpec | src/LuzFaltex.Core.Collections/MultiValueDictionary/MultiValueDictionary.cs:246-262 | `Remove(k, v)` reports true exactly when the key held the value; false changes nothing; true takes one copy and one pair away and removes the key exactly when that was its last value; no other key changes |
| MultiMap.RemovePairKeepsSecondCopy | tests/LuzFaltex.Core.Collections.Tests/MultiValueDictionary/MultiValueDictionaryTests.Remove.cs:201-237 | a key holding a value twice still holds it after one removal |
| MultiMap.NoEmptyPreserved | src/LuzFaltex.Core.Collections/MultiValueDictionary/MultiValueDictionary.cs:246-262 | `Add`, `Remove(k, v)` and `Remove(k)` keep every collection non-empty when all were (only `AddRange` breaks this) |
| MultiMap.FromDistinctPairs | src/LuzFaltex.Core.Collections/MultiValueDictionary/MultiValueDictionary.cs:152-161 | copying pairs with distinct keys yields exactly those keys, each with its values |
| InnerView.InnerCollectionView.constructor | src/LuzFaltex.Core.Collections/MultiValueDictionary/MultiValueDictionary.InnerCollectionView.cs:42 | a new view has the given key and an empty collection of the given kind; `key` is a constant and never changes |
| InnerView.InnerCollectionView.Count | src/LuzFaltex.Core.Collections/MultiValueDictionary/MultiValueDictionary.InnerCollectionView.cs:51 | the count is the collection's size, and zero exactly when it is empty |
| InnerView.InnerCollectionView.IsReadOnly | src/LuzFaltex.Core.Collections/MultiValueDictionary/MultiValueDictionary.InnerCollectionView.cs:54 | a view always reports itself read-only |
| InnerView.InnerCollectionView.Contains | src/LuzFaltex.Core.Collections/MultiValueDictionary/MultiValueDictionary.InnerCollectionView.cs:70-71 | true exactly when some element equals the item |
| InnerView.InnerCollectionView.Add | src/LuzFaltex.Core.Collections/MultiValueDictionary/MultiValueDictionary.InnerCollectionView.cs:62-63 | the collection becomes `Backing.Add` of the old one and keeps its kind's invariant |
| InnerView.InnerCollectionView.Remove | src/LuzFaltex.Core.Collections/MultiValueDictionary/MultiValueDictionary.InnerCollectionView.cs:66-67 | the loop finds the first equal element; the result is true exactly when the item was present; the collection loses exactly that copy, or is unchanged |
| InnerView.InnerCollectionView.Clear | src/LuzFaltex.Core.Collections/MultiValueDictionary/MultiValueDictionary.InnerCollectionView.cs:114-117 | the collection is empty afterwards |
| InnerView.InnerCollectionView.CopyTo | src/LuzFaltex.Core.Collections/MultiValueDictionary/MultiValueDictionary.InnerCollectionView.cs:74-99 | it throws `ArgumentOutOfRangeException` exactly for a negative index, an index past the end, or too little room, and leaves the array untouched then; otherwise it writes the elements in order from the index and leaves every other slot as it was |
| Dictionary.MultiValueDictionary.constructor | src/LuzFaltex.Core.Collections/MultiValueDictionary/MultiValueDictionary.cs:97-100 | a new dictionary is empty, `List`-backed and at version 0 |
| Dictionary.MultiValueDictionary.WithCollection | src/LuzFaltex.Core.Collections/MultiValueDictionary/MultiValueDictionary.cs:55-61 | an empty dictionary whose factory produces the chosen collection kind |
| Dictionary.MultiValueDictionary.WithCapacity | src/LuzFaltex.Core.Collections/MultiValueDictionary/MultiValueDictionary.cs:129-133 | a negative capacity throws `ArgumentOutOfRangeException`; any other gives a fresh, empty dictionary |
| Dictionary.MultiValueDictionary.FromPairs | src/LuzFaltex.Core.Collections/MultiValueDictionary/MultiValueDictionary.cs:152-161 | a null source throws; otherwise the loop of `AddRange` calls gives exactly `MultiMap.FromPairs` of the pairs, one version bump per pair, and only fresh views, so no collection is shared with the source |
| Dictionary.MultiValueDictionary.Count | src/LuzFaltex.Core.Collections/MultiValueDictionary/MultiValueDictionary.cs:92 | the number of keys present |
| Dictionary.MultiValueDictionary.Item | src/LuzFaltex.Core.Collections/MultiValueDictionary/MultiValueDictionary.cs:79-89 | a null key throws `ArgumentNullException`; an absent key throws `KeyNotFoundException`; a present key yields its live view object, which holds the key's contents |
| Dictionary.MultiValueDictionary.TryGetValue | src/LuzFaltex.Core.Collections/MultiValueDictionary/MultiValueDictionary.cs:310-317 | a null key throws; otherwise a view exactly when the key is present, the same object the indexer yields |
| Dictionary.MultiValueDictionary.ContainsKey | src/LuzFaltex.Core.Collections/MultiValueDictionary/MultiValueDictionary.cs:283-287 | a null key throws; otherwise true exactly when the key is present |
| Dictionary.MultiValueDictionary.Contains | src/LuzFaltex.Core.Collections/MultiValueDictionary/MultiValueDictionary.cs:270-280 | a null key throws; otherwise true exactly when the key is present and its collection holds the value |
| Dictionary.MultiValueDictionary.ContainsValue | src/LuzFaltex.Core.Collections/MultiValueDictionary/MultiValueDictionary.cs:294-307 | a null value throws; otherwise the loop over the keys answers true exactly when some key's collection holds the value |
| Dictionary.MultiValueDictionary.Add | src/LuzFaltex.Core.Collections/MultiValueDictionary/MultiValueDictionary.cs:174-186 | a null key throws and changes nothing; otherwise the contents become `MultiMap.AddPair` of the old ones, an absent key gets a fresh view, every other view is kept, and the version is bumped |
| Dictionary.MultiValueDictionary.GetOrCreate | src/LuzFaltex.Core.Collections/MultiValueDictionary/MultiValueDictionary.cs:204-208 | the key's existing view, or a fresh empty one inserted for an absent key; nothing else changes |
| Dictionary.MultiValueDictionary.AddRange | src/LuzFaltex.Core.Collections/MultiValueDictionary/MultiValueDictionary.cs:199-216 | a null key or range throws and changes nothing; otherwise the contents become `MultiMap.AddRange` of the old ones, the key is present even for an empty range, and the version is always bumped |
| Dictionary.MultiValueDictionary.AddValues | src/LuzFaltex.Core.Collections/MultiValueDictionary/MultiValueDictionary.cs:204-215 | with both arguments present: the key's view is found or created, the values are added, the version is bumped, and only that key changes |
| Dictionary.AddEach | src/LuzFaltex.Core.Collections/MultiValueDictionary/MultiValueDictionary.cs:210-213 | the loop leaves the view holding `Backing.AddAll` of its old contents and the values, in order |
| Dictionary.MultiValueDictionary.RemoveKey | src/LuzFaltex.Core.Collections/MultiValueDictionary/MultiValueDictionary.cs:223-234 | a null key throws; otherwise true exactly when the key was present; the key is gone afterwards, so the indexer throws for it; every other key and view is kept; the version is bumped only on true |
| Dictionary.MultiValueDictionary.RemovePair | src/LuzFaltex.Core.Collections/MultiValueDictionary/MultiValueDictionary.cs:246-262 | a null key throws; otherwise the result and the new contents are those of `MultiMap.RemovePair`; the key leaves only when its last value went; the version is bumped only on true |
| Dictionary.MultiValueDictionary.Clear | src/LuzFaltex.Core.Collections/MultiValueDictionary/MultiValueDictionary.cs:322-326 | no keys remain, `Count` is 0, and the version is bumped |
| Int32Bits.AndLowMask | src/LuzFaltex.Core.Numerics/Finance/SocialSecurityNumber.cs:41-42 | and-ing with the mask `2^n - 1` (0x7F, 0x3FFF) keeps exactly the low n bits |
| Int32Bits.OrDisjoint | src/LuzFaltex.Core.Numerics/Finance/SocialSecurityNumber.cs:95 | or-ing a shifted number with one below the shift is adding them |
| Int32Bits.OrShifted | src/LuzFaltex.Core.Numerics/Finance/SocialSecurityNumber.cs:95 | or commutes with shifting both operands up |
| Ssn.SocialSecurityNumber.AreaNumber | src/LuzFaltex.Core.Numerics/Finance/SocialSecurityNumber.cs:52 | the unsigned shift by 21 leaves at most 11 bits, so the `ushort` cast loses nothing |
| Ssn.SocialSecurityNumber.GroupNumber | src/LuzFaltex.Core.Numerics/Finance/SocialSecurityNumber.cs:57 | the group number is below 128 |
| Ssn.SocialSecurityNumber.SerialNumber | src/LuzFaltex.Core.Numerics/Finance/SocialSecurityNumber.cs:62 | the serial number is below 16384 |
| Ssn.SocialSecurityNumber.ToFormattedString | src/LuzFaltex.Core.Numerics/Finance/SocialSecurityNumber.cs:182-194 | it throws `ArgumentOutOfRangeException` exactly when the upper-cased format (with null as "G") is none of G, H, U, M, N |
| Ssn.SocialSecurityNumber.ToString | src/LuzFaltex.Core.Numerics/Finance/SocialSecurityNumber.cs:143-144 | `ToString()` is the text a null format gives, the "G" text; for parts that fit their digits it has eleven characters with hyphens after the third and fifth digit |
| Ssn.FormatParts | src/LuzFaltex.Core.Numerics/Finance/SocialSecurityNumber.cs:186-193 | only the five codes give a text; any other throws `ArgumentOutOfRangeException` |
| Ssn.SocialSecurityNumber.AsArray | src/LuzFaltex.Core.Numerics/Finance/SocialSecurityNumber.cs:116-125 | a fresh array holding the three layered digit writes; it throws `IndexOutOfRangeException` exactly when the area number has four digits |
| Ssn.Subdivide | src/LuzFaltex.Core.Numerics/Finance/SocialSecurityNumber.cs:126-139 | the loop writes the value's digits leftwards from `count`; it fails exactly when they run past the array's start; otherwise the array becomes `Layer` of the old one |
| Ssn.NewFromParts | src/LuzFaltex.Core.Numerics/Finance/SocialSecurityNumber.cs:94-100 | it throws `ArgumentOutOfRangeException` exactly when area > 999, group > 99 or serial > 9999 |
| Ssn.Default | src/LuzFaltex.Core.Numerics/Finance/SocialSecurityNumber.cs:70 | `default` is the value 0, whose parts are 0, 0 and 0 |
| Ssn.SampleNumber | src/LuzFaltex.Core.Numerics/Finance/SocialSecurityNumber.cs:78 | the sample number has parts 219, 9 and 9999 |
| Ssn.WoolsworthNumber | src/LuzFaltex.Core.Numerics/Finance/SocialSecurityNumber.cs:85 | the Woolsworth number has parts 78, 5 and 1120 |
| Ssn.PackParts | src/LuzFaltex.Core.Numerics/Finance/SocialSecurityNumber.cs:94-95 | packing parts that fit their bit fields gives the weighted sum `area * 2^21 + group * 2^14 + serial`, and the accessors read each part back |
| Ssn.Pack | src/LuzFaltex.Core.Numerics/Finance/SocialSecurityNumber.cs:95 | for parts that fit their bit fields the shifted parts do not overlap, so the pattern is their weighted sum `area * 2^21 + group * 2^14 + serial` |
| Ssn.PartsOfPattern | src/LuzFaltex.Core.Numerics/Finance/SocialSecurityNumber.cs:52-62 | the accessors split any pattern into its top 11 bits, the next 7 and the low 14, and the pattern is their weighted sum |
| Ssn.PackOfParts | src/LuzFaltex.Core.Numerics/Finance/SocialSecurityNumber.cs:94-109 | repacking any number's own parts gives back its value |
| Ssn.NewFromPartsRoundTrip | src/LuzFaltex.Core.Numerics/Finance/SocialSecurityNumber.cs:94-100 | parts within 0..999, 0..99 and 0..9999 are accepted, and the number reads exactly those parts back |
| Ssn.PartsDetermineNumber | src/LuzFaltex.Core.Numerics/Finance/SocialSecurityNumber.cs:47-62 | two numbers with the same three parts are the same number |
| Ssn.PackedValues | tests/LuzFaltex.Core.Numerics.Tests/SocialSecurityNumber/SocialSecurityNumberTests.cs:112-127 | 999-99-9999 packs to 2096686863 |
| Decimal.DigitsLength | src/LuzFaltex.Core.Numerics/Finance/SocialSecurityNumber.cs:133-136 | a number has at most n decimal digits exactly when it is below `10^n` |
| Decimal.DecimalStringDigits | src/LuzFaltex.Core.Numerics/Finance/SocialSecurityNumber.cs:188 | the numeral of a number is its digits, most significant first ("0" for zero) |
| Decimal.FormatDigits | src/LuzFaltex.Core.Numerics/Finance/SocialSecurityNumber.cs:188-191 | `D<n>` of a number below `10^n` is exactly n digit characters, the i-th from the right being the i-th least significant digit |
| Decimal.LeadingZeros | src/LuzFaltex.Core.Numerics/Finance/SocialSecurityNumber.Parse.cs:109-111 | leading zeros do not change the value `int.Parse` reads |
| Decimal.DecimalStringValue | src/LuzFaltex.Core.Numerics/Finance/SocialSecurityNumber.Parse.cs:109-111 | parsing a number's numeral gives back the number |
| Decimal.FormatValue | src/LuzFaltex.Core.Numerics/Finance/SocialSecurityNumber.Parse.cs:109-111 | parsing `D<n>` of a number gives back the number |
| Decimal.DecimalValueBound | src/LuzFaltex.Core.Numerics/Finance/SocialSecurityNumber.Parse.cs:109-111 | a run of n digits denotes a number below `10^n` |
| SsnText.FormatIgnoresCase | src/LuzFaltex.Core.Numerics/Finance/SocialSecurityNumber.cs:184-186 | the format code's case does not matter, and a null format is "G" |
| SsnText.FormatsOfParts | src/LuzFaltex.Core.Numerics/Finance/SocialSecurityNumber.cs:188-191 | for parts that fit their digits, "U" is nine digits whose runs read back as the parts; "G"/"H" hyphenate them; "M" and "N" mask all but the serial's four digits |
| SsnText.FormatsAgree | src/LuzFaltex.Core.Numerics/Finance/SocialSecurityNumber.cs:143-144 | the same read off a number's own formats, and `ToString()` is the "G" text |
| SsnText.AsArrayIsUnhyphenatedDigits | src/LuzFaltex.Core.Numerics/Finance/SocialSecurityNumber.cs:116-140 | for a number whose parts fit their digits, `AsArray` holds the digits of its "U" text, in order |
| SsnText.PartsLayersAreDigits | src/LuzFaltex.Core.Numerics/Finance/SocialSecurityNumber.cs:119-122 | the three digit writes into nine zeros leave the digits of the "U" text of the parts |
| SsnText.LayerBlock | src/LuzFaltex.Core.Numerics/Finance/SocialSecurityNumber.cs:126-139 | writing a number below `10^width` into a block of zeros fills the block with its zero-padded digits and leaves every other position alone |
| SsnText.NamedNumberTexts | tests/LuzFaltex.Core.Numerics.Tests/SocialSecurityNumber/SocialSecurityNumberTests.cs:61-71 | the texts of `Default`, the Woolsworth number and the sample number in the formats the tests use |
| SsnText.NamedNumberArrays | tests/LuzFaltex.Core.Numerics.Tests/SocialSecurityNumber/SocialSecurityNumberTests.cs:31-39 | the digit arrays of `Default`, the Woolsworth number (0,7,8,0,5,1,1,2,0) and the sample number |
| SsnInput.SkipWhiteSpace | src/LuzFaltex.Core.Numerics/Finance/SocialSecurityNumber.Parse.cs:32 | the run of white space from i ends at the first character that is not white space |
| SsnInput.Match | src/LuzFaltex.Core.Numerics/Finance/SocialSecurityNumber.Parse.cs:105-112 | the parts of a match lie in 0..999, 0..99 and 0..9999 |
| SsnInput.TryParseInput | src/LuzFaltex.Core.Numerics/Finance/SocialSecurityNumber.Parse.cs:91-116 | parts only for a non-null input that matches, and those parts lie in 0..999, 0..99 and 0..9999 |
| SsnInput.MatchComplete | src/LuzFaltex.Core.Numerics/Finance/SocialSecurityNumber.Parse.cs:32 | every text of the pattern's shape (white space, three digits, optional separator, two digits, optional separator, four digits, white space) is accepted with the values of its digit runs |
| SsnInput.MatchSound | src/LuzFaltex.Core.Numerics/Finance/SocialSecurityNumber.Parse.cs:105-115 | every accepted text has the pattern's shape, and the parts are the values of its digit runs |
| SsnInput.BlankInputNeverMatches | src/LuzFaltex.Core.Numerics/Finance/SocialSecurityNumber.Parse.cs:99-103 | the blank-input check refuses nothing the pattern would accept |
| SsnValidate.ValidatePartsAsWritten | src/LuzFaltex.Core.Numerics/Finance/SocialSecurityNumber.Validate.cs:57-75 | the check as written accepts nothing at or above 999, 99 and 9999, and on parts that are not negative it agrees with the corrected check |
| SsnValidate.ValidateParts | src/LuzFaltex.Core.Numerics/Finance/SocialSecurityNumber.Validate.cs:57-75 | the corrected check accepts only positive parts, and valid parts are accepted by the parts constructor |
| SsnValidate.ValidateNumber | src/LuzFaltex.Core.Numerics/Finance/SocialSecurityNumber.Validate.cs:47-48 | a number is valid exactly when the check as written accepts its parts, which is exactly when the corrected check does, and then its parts fit their digits |
| SsnValidate.ValidateString | src/LuzFaltex.Core.Numerics/Finance/SocialSecurityNumber.Validate.cs:32-40 | a text is valid exactly when it is recognised and the check as written accepts its parts, which is exactly when the corrected check does; null is never valid |
| SsnValidate.AsWrittenAcceptsNegativeArea | src/LuzFaltex.Core.Numerics/Finance/SocialSecurityNumber.Validate.cs:57-75 | the check as written accepts the parts -1, 1, 1, which the corrected check refuses |
| SsnValidate.ChecksAgreeOnNaturals | src/LuzFaltex.Core.Numerics/Finance/SocialSecurityNumber.Validate.cs:57-75 | on non-negative parts the check as written and the corrected check agree |
| SsnValidate.ValidPartsMakeValidNumber | src/LuzFaltex.Core.Numerics/Finance/SocialSecurityNumber.Validate.cs:47-75 | valid parts are accepted by the parts constructor, and the number made is valid and reads them back |
| SsnValidate.ValidNumberInRange | src/LuzFaltex.Core.Numerics/Finance/SocialSecurityNumber.Validate.cs:47-48 | a valid number's parts fit their three, two and four digits |
| SsnValidate.NamedNumbersValidity | tests/LuzFaltex.Core.Numerics.Tests/SocialSecurityNumber/SocialSecurityNumberTests.cs:112-127 | 999-99-9999, `Default` and the sample number are invalid; the Woolsworth number is valid |
| SsnParse.TryParse | src/LuzFaltex.Core.Numerics/Finance/SocialSecurityNumber.Parse.cs:65-81 | true exactly when `Validate(string)` holds, which is exactly when the text is recognised and the check as written accepts its parts, and equally when the corrected check does; then the result is a valid number with the parsed parts; otherwise the result is `Default` |
| SsnParse.Parse | src/LuzFaltex.Core.Numerics/Finance/SocialSecurityNumber.Parse.cs:44-52 | a number exactly when `Validate(string)` holds, the same one `TryParse` gives; otherwise `ArgumentException` |
| SsnParse.FormatThenRecognise | tests/LuzFaltex.Core.Numerics.Tests/SocialSecurityNumber/SocialSecurityNumberTests.cs:90-110 | the "G" and "U" texts of a number whose parts fit their digits are recognised, with its parts, valid or not |
| SsnParse.RecogniseFormattedParts | tests/LuzFaltex.Core.Numerics.Tests/SocialSecurityNumber/SocialSecurityNumberTests.cs:90-110 | the same for parts |
| SsnParse.RecogniseNineDigits | src/LuzFaltex.Core.Numerics/Finance/SocialSecurityNumber.Parse.cs:32 | nine digits, hyphenated after the third and fifth or not at all, are recognised with the values of the three runs |
| SsnParse.FormatThenParse | src/LuzFaltex.Core.Numerics/Finance/SocialSecurityNumber.Parse.cs:38-52 | every valid number, written in "G" or "U", parses back to itself |
| SsnParse.ParseThenFormat | src/LuzFaltex.Core.Numerics/Finance/SocialSecurityNumber.Parse.cs:65-81 | the "G" text of a parsed number parses to the same number |
| SsnParse.NamedNumberParses | tests/LuzFaltex.Core.Numerics.Tests/SocialSecurityNumber/SocialSecurityNumberTests.cs:137-148 | both texts of the Woolsworth number parse to it; those of `Default` and the sample number are refused |
| SsnParse.RefusedText | src/LuzFaltex.Core.Numerics/Finance/SocialSecurityNumber.Parse.cs:74-80 | a number that is not valid is refused in both its texts |
| SsnEquality.Equals | src/LuzFaltex.Core.Numerics/Finance/SocialSecurityNumber.Equality.cs:45-46 | equal packed values is sameness of numbers |
| SsnEquality.EqualsObject | src/LuzFaltex.Core.Numerics/Finance/SocialSecurityNumber.Equality.cs:41-42 | `Equals(object)` holds exactly for this same number, never for `null` or another type |
| SsnEquality.OpEquality | src/LuzFaltex.Core.Numerics/Finance/SocialSecurityNumber.Equality.cs:33-34 | `==` is sameness of numbers |
| SsnEquality.OpInequality | src/LuzFaltex.Core.Numerics/Finance/SocialSecurityNumber.Equality.cs:37-38 | `!=` is the negation of `==` |
| SsnEquality.GetHashCode | src/LuzFaltex.Core.Numerics/Finance/SocialSecurityNumber.Equality.cs:49-50 | every number equal to this one has its hash code, the packed value |
| SsnEquality.EqualsIsIdentity | src/LuzFaltex.Core.Numerics/Finance/SocialSecurityNumber.Equality.cs:33-46 | `Equals` is sameness of numbers (reflexive, symmetric, transitive); `==` is `Equals` and `!=` its negation |
| SsnEquality.EqualsIffSameParts | src/LuzFaltex.Core.Numerics/Finance/SocialSecurityNumber.Equality.cs:45-46 | two numbers are equal exactly when all three parts are |
| SsnEquality.HashAndObjectEquality | src/LuzFaltex.Core.Numerics/Finance/SocialSecurityNumber.Equality.cs:41-50 | equal numbers have equal hash codes; `Equals(object)` agrees with `Equals` on numbers and is false for anything else |

## Left out

- Enumeration: the `Enumerator` class, `GetEnumerator`, `Keys` and `Values` are not part of this model. `_version` is kept as a field whose increments are specified.
- The collection factory and the `Create` overloads are not part of this model. The factory's choice is the `kind` parameter of `WithCollection`, and the parameterless constructor uses `List`.
- The key comparer is a foreign callback; keys are compared with Dafny equality. The constructors that take one are modelled by those that do not.
- The capacity hint has no effect beyond the negative-value check, so it is not kept.
- A `HashSet`'s enumeration order is modelled as insertion order; only its contents and its idempotent `Add` are relied on.
- Null values are modelled only where the code treats them specially: `ContainsValue` rejects one.
- The debugger views, `GetDebuggerDisplay`, and the `Serializable`, `DebuggerDisplay` and code-generation attributes are not functional behaviour.
- The null-array check of `CopyTo` checks the name of the parameter, not the array, so it never fires; Dafny arrays are never null.
- `Clear` and `Remove` leave views obtained earlier holding their values. The model keeps those objects as they were, but states nothing else about them.
- The `AddRange` loop is the method `Dictionary.AddEach`, called by `AddValues`.
- Dictionary.MultiValueDictionary.AddRange: the range is a value, taken whole before the call. A range that is the key's own view is not modelled: in the source, adding to a `List` while enumerating it throws `InvalidOperationException` after the first element, leaving one extra copy and no version bump. A lazy or throwing enumerable is not modelled either.
- Dictionary.MultiValueDictionary.FromPairs: a pair is a key and a sequence, so a null key or a null collection inside the source, which makes the source throw `ArgumentNullException` from `AddRange`, is not modelled. The same snapshot limitation as for `AddRange` applies.
- `\s` and `\d` are modelled on ASCII (space, tab to carriage return; `0`-`9`). .NET also matches Unicode spaces and digits.
- `int.Parse`, `CultureInfo` and `IFormatProvider` are taken as culture-invariant.
- `ToUpperInvariant` is modelled on ASCII letters only.
- `AsArray` is generic over the element type; the model uses `int`.
- Ssn.SocialSecurityNumber.AsArray: the array contents are stated as the three layered writes of `Subdivide`. They are tied to the digits of the "U" text (`SsnText.AsArrayIsUnhyphenatedDigits`) only for numbers whose parts fit their digits, which are all the numbers the parts constructor makes.
- Ssn.SocialSecurityNumber.GroupNumber: states only the bound. The value is given by `Ssn.PartsOfPattern`.
- Ssn.SocialSecurityNumber.SerialNumber: states only the bound. The value is given by `Ssn.PartsOfPattern`.
- `FileSize` has no implemented behaviour and is not part of this model.

## Findings

| source | as written | input that shows it | evidently intended | confidence | as-written member | corrected member |
|---|---|---|---|---|---|---|
| src/LuzFaltex.Core.Numerics/Finance/SocialSecurityNumber.Validate.cs:57-75 | `Validate(int, int, int)` refuses 0, 666, values at or above the upper bounds, and nothing below zero | `Validate(-1, 1, 1)` returns true | negative parts are refused, as 0 is | not executed | SsnValidate.ValidatePartsAsWritten, SsnValidate.AsWrittenAcceptsNegativeArea | SsnValidate.ValidateParts, SsnValidate.ValidPartsMakeValidNumber |

`ValidateNumber`, `ValidateString` and `TryParse` call the check as written, as
the source does, and their contracts prove that the corrected
`SsnValidate.ValidateParts` gives the same answer on the parts they pass.
`SsnValidate.ChecksAgreeOnNaturals` proves that the two checks agree on every
non-negative input, which covers every input from a number or a text, so the
defect cannot be reached through them.
`SsnValidate.ValidPartsMakeValidNumber` proves that valid parts make exactly
one valid number.
