# Book exam services — a Dafny model

This project models the core of a small book exchange built from four
Spring/Kotlin services:

- **book**: a catalogue of books with a generated `Long` id.
- **member**: members, each keyed by a caller-chosen id, with a map from
  book name to asking price.
- **store**: books offered for sale, with a generated id and a creation
  stamp.
- **gateway**: user accounts, and the sign-in endpoint that registers a
  user and announces a new member.

Each service's repository is a class over an in-memory map and an id
sequence. Its create and update operations guard their input, then either
answer `false` with the table unchanged or overwrite exactly the fields
they name. Each REST controller is a class whose handlers run the source's
checks in the source's order and return the status code. The three
hand-written JSON merge-patch handlers are also specified by pure
functions (`PatchBook`, `PatchMember`, `PatchListing`) over a parsed JSON
tree, and the handlers are proved to compute them. The entities'
bean-validation annotations become validity predicates. Hibernate
Validator's `@NotBlank` is read as Java's `trim()` test (every character up
to U+0020 is stripped), which differs from the Kotlin `isBlank` that the
handlers' own checks use. The entity-to-record
converters become functions whose contracts say which fields are copied;
the book and listing converters also have lemmas that read the id back
from its text.

The merge patches follow the idea of section 2 of RFC 7396 (JSON Merge
Patch), with the source's deviations kept:

- a mandatory field keeps its value on `null`;
- the member's book map is merged, not replaced;
- the store rejects a `null` price;
- any `id` key gives 409.

Modules, one per file: `Common` (Kotlin library behaviour: nullable
values, `Int`/`Long`, `isBlank`, `trim`, the `@NotBlank` test, letter
case, `toLong`/`toInt` with every Unicode decimal digit,
`Long.toString`), `Json`, `Schema` (the wire records), `BookDomain`,
`BookRepo`, `BookApi`, `MemberDomain`, `MemberRepo`, `MemberApi`,
`StoreDomain`, `StoreRepo`, `StoreApi`, `UserDomain`, `UserAccounts`
(the account table and `UserService`) and `AuthApi`.

Inputs the model takes as parameters:

- the clock reading (`now`);
- the password encoder (`UserService.encode`, an arbitrary function);
- the parsed request body (`Option<Json>`, `None` when it does not parse);
- the statuses of the member service's two remote calls;
- whether publishing the sign-in event throws (`publishFails`).

Where the code, its comments and its declarations disagree, the model
follows what the code does:

- A `null` book map in a member patch empties the map (it is not kept).
- A `null` price in a listing patch is rejected. The comment in the
  handler says it is kept, but the test `priceNode == null` cannot succeed
  once `has("price")` is true.
- `BookForSaleDto` is declared with three fields, but the store's
  converter and its POST check use an `id` and a `createdOn` as well, so
  `Schema.BookForSaleDto` carries them.

## Model

Paths are relative to the repository root.

| member | source | states |
|---|---|---|
| Common.Wrap32 | book/src/main/kotlin/com/stella/bookexam/book/controller/BookController.kt:341-342 | `intValue()` keeps the low 32 bits: the result is an `Int` congruent to the number modulo 2^32, and equal to it when it already fits |
| Common.TrimStart | member/src/main/kotlin/com/stella/bookexam/member/repository/MemberRepository.kt:51 | what `trim` drops at the front is whitespace, what it keeps is a suffix of the text starting with a non-whitespace character |
| Common.TrimEnd | member/src/main/kotlin/com/stella/bookexam/member/repository/MemberRepository.kt:51 | what `trim` drops at the back is whitespace, what it keeps is a prefix of the text ending with a non-whitespace character |
| Common.TrimKeepsBlank | member/src/main/kotlin/com/stella/bookexam/member/repository/MemberRepository.kt:51 | `username.trim().isNullOrBlank()` holds exactly when `username.isBlank()` does |
| Common.BlankTestsDiffer | book/src/main/kotlin/com/stella/bookexam/book/domain/model/Book.kt:15 | `@NotBlank` and Kotlin's `isBlank` disagree both ways: a control character is empty once trimmed but not blank; a no-break space is blank but survives `trim()` |
| Common.IsWhitespace | member/src/main/kotlin/com/stella/bookexam/member/repository/MemberRepository.kt:51 | `Char.isWhitespace`: the ASCII controls TAB..CR and FS..US and the Unicode 6.2 space, line and paragraph separators (U+180E included) |
| Common.ToLowerIdempotent | gateway/src/main/kotlin/com/stella/bookexam/gateway/controller/AuthController.kt:61 | lowercasing twice is lowercasing once |
| Common.ToLowerKeepsBlank | member/src/main/kotlin/com/stella/bookexam/member/controller/MemberController.kt:76-78 | lowercasing keeps the length, and keeps a name blank or non-blank |
| Common.ParseIntegerIn | book/src/main/kotlin/com/stella/bookexam/book/controller/BookController.kt:206-211 | an accepted decimal text always denotes a value inside the target type's range; digits are those `Character.digit` accepts in radix 10 |
| Common.DigitZero | book/src/main/kotlin/com/stella/bookexam/book/controller/BookController.kt:206-211 | a character is a decimal digit of some script exactly when it lies within ten code points above that script's zero |
| Common.OtherScriptDigitsParse | book/src/main/kotlin/com/stella/bookexam/book/controller/BookController.kt:206-211 | `toLong` and `toInt` read Arabic-Indic and fullwidth digits as their values |
| Common.NatToString | book/src/main/kotlin/com/stella/bookexam/book/domain/converter/BookConverter.kt:18 | the decimal text of a natural number is a non-empty digit string whose value is that number |
| Common.ParseIntegerRoundTrip | book/src/main/kotlin/com/stella/bookexam/book/domain/converter/BookConverter.kt:18 | parsing the decimal text of an integer gives the integer when it is in range, and a format error otherwise |
| Common.ParseLongRoundTrip | book/src/main/kotlin/com/stella/bookexam/book/domain/converter/BookConverter.kt:18 | `id.toString().toLong()` gives back every `Long` id |
| Common.MapSeq | book/src/main/kotlin/com/stella/bookexam/book/domain/converter/BookConverter.kt:22-24 | `map` keeps the length and converts element by element, in order |
| Common.Enumerate | book/src/main/kotlin/com/stella/bookexam/book/controller/BookController.kt:88-93 | rows returned without an ORDER BY: each element of the set exactly once |
| Json.MandatoryText | book/src/main/kotlin/com/stella/bookexam/book/controller/BookController.kt:284-294 | a mandatory text field is replaced exactly by text, kept on absent or null, and rejected exactly for any other JSON type |
| Json.NullableText | book/src/main/kotlin/com/stella/bookexam/book/controller/BookController.kt:296-333 | a nullable text field is kept exactly when absent, cleared by null, replaced by text, rejected exactly for any other type |
| Json.NullableNumber | book/src/main/kotlin/com/stella/bookexam/book/controller/BookController.kt:335-359 | a nullable number field is kept exactly when absent, cleared by null, replaced by the number's low 32 bits, rejected exactly for any other type |
| Json.RequiredNumber | store/src/main/kotlin/com/stella/bookexam/store/controller/StoreController.kt:171-180 | the listing price is kept exactly when absent, replaced by a number, and rejected for null and every other type |
| Json.ReadMandatoryText | book/src/main/kotlin/com/stella/bookexam/book/controller/BookController.kt:284-294 | the handler's block on a mutable local accepts exactly when the decision is not a rejection, and leaves the decided value |
| Json.ReadNullableText | book/src/main/kotlin/com/stella/bookexam/book/controller/BookController.kt:296-307 | the same, for a nullable text field |
| Json.ReadNullableNumber | book/src/main/kotlin/com/stella/bookexam/book/controller/BookController.kt:335-346 | the same, for a nullable number field |
| Json.ReadRequiredNumber | store/src/main/kotlin/com/stella/bookexam/store/controller/StoreController.kt:171-180 | the same, for the listing price |
| BookDomain.Transform | book/src/main/kotlin/com/stella/bookexam/book/domain/converter/BookConverter.kt:10-20 | every field is copied; a stored id is written as its decimal text and a missing one as the text "null" |
| BookDomain.TransformAll | book/src/main/kotlin/com/stella/bookexam/book/domain/converter/BookConverter.kt:22-24 | the list converter keeps length and order and converts each book |
| BookDomain.TransformIdRoundTrip | book/src/main/kotlin/com/stella/bookexam/book/domain/converter/BookConverter.kt:18 | the record's id text parses back to the book's id, as the PUT path check needs |
| BookDomain.TransformNullId | book/src/main/kotlin/com/stella/bookexam/book/domain/converter/BookConverter.kt:18 | a book without an id gets the text "null", which does not parse as a number |
| BookDomain.ValidBook | book/src/main/kotlin/com/stella/bookexam/book/domain/model/Book.kt:15-34 | the annotations: name not empty once trimmed and 1..50 characters; description null or 1..250; genre null or 1..50; author null or at most 50; price null or at least 0; rating null or 0..5 |
| BookRepo.BookRepository.FindOne | book/src/main/kotlin/com/stella/bookexam/book/controller/BookController.kt:262 | `findOne` finds a row exactly when the id is stored, and that row |
| BookRepo.BookRepository.ExistsByNameIffFound | book/src/main/kotlin/com/stella/bookexam/book/repository/BookRepository.kt:13-15 | `existsByName` holds exactly when `findAllByName` finds a row, and every row found has exactly that name |
| BookRepo.BookRepository.FindAllByName | book/src/main/kotlin/com/stella/bookexam/book/repository/BookRepository.kt:13 | the stored books whose name is exactly the given one |
| BookRepo.BookRepository.ExistsByName | book/src/main/kotlin/com/stella/bookexam/book/repository/BookRepository.kt:15 | some stored book has exactly the given name |
| BookRepo.UpdateGuard | book/src/main/kotlin/com/stella/bookexam/book/repository/BookRepository.kt:85-93 | what `updateBook` demands of a known row: a non-empty name, and a price and rating each null or at least 1 |
| BookRepo.BookRepository.CreateBook | book/src/main/kotlin/com/stella/bookexam/book/repository/BookRepository.kt:48-73 | constraint violation exactly when the entity breaks the annotations; stored exactly when it is valid, the name is free and an id is left; then a fresh id other than -1 under which exactly the new row is added; otherwise no change; unique names preserved |
| BookRepo.BookRepository.UpdateBook | book/src/main/kotlin/com/stella/bookexam/book/repository/BookRepository.kt:75-103 | true exactly for a stored id, a non-empty name and a price and rating null or at least 1; then all six fields are overwritten (nulls included) and the id kept; otherwise no change |
| BookRepo.BookRepository.UpdatePrice | book/src/main/kotlin/com/stella/bookexam/book/repository/BookRepository.kt:105-115 | true exactly for a stored id and a price in 0..1000; then only the price changes; otherwise no change |
| BookRepo.BookRepository.Delete | book/src/main/kotlin/com/stella/bookexam/book/controller/BookController.kt:403-412 | true exactly when the id was stored; the row is gone afterwards and nothing else changes |
| BookApi.NewBook | book/src/main/kotlin/com/stella/bookexam/book/controller/BookController.kt:64-71 | the entity a POST creates has no id and converts back to the posted record |
| BookApi.DtoFieldsNotNull | book/src/main/kotlin/com/stella/bookexam/book/controller/BookController.kt:416-419 | `isDtoFieldsNotNull`: name, description, genre and author present and not blank; price present and not 0; rating present, not 0 and at most 5 (a negative price or rating passes) |
| BookApi.CreatableExactly | book/src/main/kotlin/com/stella/bookexam/book/controller/BookController.kt:53-55 | for a record that passes `isDtoFieldsNotNull`, the entity is valid exactly when the name is not empty once trimmed, the lengths fit, the price is at least 1 and the rating is 1..5 |
| BookApi.CreatedBookReadsBack | book/src/main/kotlin/com/stella/bookexam/book/controller/BookController.kt:64-77 | after a POST, the stored book converts back to the posted fields with the new id as text, and that text parses back to the id |
| BookApi.ReplacedBook | book/src/main/kotlin/com/stella/bookexam/book/controller/BookController.kt:172-180 | what a PUT writes keeps the path id and converts back to the request body |
| BookApi.PatchBook | book/src/main/kotlin/com/stella/bookexam/book/controller/BookController.kt:277-367 | an accepted patch keeps the id; a body that is not an object changes nothing |
| BookApi.PatchRejectsExactlyWrongTypes | book/src/main/kotlin/com/stella/bookexam/book/controller/BookController.kt:284-359 | a patch is rejected exactly when one of the six fields has a value of the wrong JSON type |
| BookApi.PatchFieldPolicy | book/src/main/kotlin/com/stella/bookexam/book/controller/BookController.kt:284-367 | the value of each field after an accepted patch: absent keeps it; null keeps the name and clears the other five; a value replaces it, numbers narrowed to 32 bits |
| BookApi.PatchIdempotent | book/src/main/kotlin/com/stella/bookexam/book/controller/BookController.kt:277-367 | applying an accepted patch again changes nothing more |
| BookApi.EmptyPatchIsIdentity | book/src/main/kotlin/com/stella/bookexam/book/controller/BookController.kt:277-294 | the patch `{}` changes nothing |
| BookApi.ApplyPatchFields | book/src/main/kotlin/com/stella/bookexam/book/controller/BookController.kt:277-367 | the handler's step-by-step locals compute exactly PatchBook |
| BookApi.BookController.CreateBook | book/src/main/kotlin/com/stella/bookexam/book/controller/BookController.kt:44-78 | 201 exactly when the body has no id, passes the field check, is a valid entity with a free name and an id is left; then exactly the posted book is stored under a fresh id; 400 otherwise with nothing stored |
| BookApi.BookController.GetAllBooks | book/src/main/kotlin/com/stella/bookexam/book/controller/BookController.kt:82-94 | every stored book (or every book with exactly the given name) converted once and nothing else |
| BookApi.BookController.GetBookById | book/src/main/kotlin/com/stella/bookexam/book/controller/BookController.kt:102-117 | a path that is not a `Long` gives 400, an unknown id 404, otherwise 200 with exactly that book |
| BookApi.BookController.GetBookByName | book/src/main/kotlin/com/stella/bookexam/book/controller/BookController.kt:125-134 | 404 exactly when no book has that exact name; otherwise 200 with a book of that name |
| BookApi.BookController.UpdateBook | book/src/main/kotlin/com/stella/bookexam/book/controller/BookController.kt:143-188 | checks in order 404 (bad path), 409 (body id differs), 404 (unknown), 400 (fields), 400 (repository refusal); 204 exactly when all pass, and then the six fields are replaced; otherwise no change |
| BookApi.BookController.UpdatePrice | book/src/main/kotlin/com/stella/bookexam/book/controller/BookController.kt:197-224 | an unparsable body counts as price 0; unknown id 404; price outside 0..1000 400; otherwise 204 and only the price changes |
| BookApi.BookController.MergePatchBook | book/src/main/kotlin/com/stella/bookexam/book/controller/BookController.kt:254-387 | 404, then 400 for an unparsable body, then 409 for any `id` key whatever else the patch holds; 204 exactly when the patch is accepted and the repository guard holds, and then the row becomes PatchBook of it; otherwise nothing is written |
| BookApi.BookController.DeleteBookById | book/src/main/kotlin/com/stella/bookexam/book/controller/BookController.kt:396-413 | 204 exactly when the book existed, 404 otherwise; the row is gone and nothing else changes |
| MemberDomain.Transform | member/src/main/kotlin/com/stella/bookexam/member/domain/converter/MemberConverter.kt:8-15 | id, username, book map and stamp are copied unchanged |
| MemberDomain.TransformAll | member/src/main/kotlin/com/stella/bookexam/member/domain/converter/MemberConverter.kt:16-18 | the list converter keeps length and order and converts each member |
| MemberDomain.ValidMember | member/src/main/kotlin/com/stella/bookexam/member/domain/model/Member.kt:14-21 | the annotations: id and username not empty once trimmed, username at most 50 characters |
| MemberRepo.GuardAndConstraintsDiffer | member/src/main/kotlin/com/stella/bookexam/member/repository/MemberRepository.kt:51-53 | neither the create guard nor the entity's `@NotBlank` constraints implies the other: a control-character name passes the guard and fails validation, a no-break-space name the reverse |
| MemberRepo.CreateGuard | member/src/main/kotlin/com/stella/bookexam/member/repository/MemberRepository.kt:51-53 | what `createMember` demands: the trimmed username not blank, the username at most 50 characters, the id not blank |
| MemberRepo.UpdateGuard | member/src/main/kotlin/com/stella/bookexam/member/repository/MemberRepository.kt:74-76 | what `updateMember` and `updateUsername` demand: a username of 1..50 characters, blank allowed |
| MemberRepo.OneCharUsername | member/src/main/kotlin/com/stella/bookexam/member/repository/MemberRepository.kt:51 | for a one-character username, the create guard holds exactly when the character is not whitespace, and the entity constraints exactly when it lies above U+0020 |
| MemberRepo.MemberRepository.FindOne | member/src/main/kotlin/com/stella/bookexam/member/controller/MemberController.kt:216 | `findOne` finds a row exactly when the id is stored, and that row |
| MemberRepo.MemberRepository.ExistsByUsernameIffFound | member/src/main/kotlin/com/stella/bookexam/member/repository/MemberRepository.kt:14-16 | `existsByUsername` holds exactly when `findAllByUsername` finds a row, and every row found has exactly that username |
| MemberRepo.MemberRepository.FindAllByUsername | member/src/main/kotlin/com/stella/bookexam/member/repository/MemberRepository.kt:16 | the stored members whose username is exactly the given one |
| MemberRepo.MemberRepository.ExistsByUsername | member/src/main/kotlin/com/stella/bookexam/member/repository/MemberRepository.kt:14 | some stored member has exactly the given username |
| MemberRepo.MemberRepository.CreateMember | member/src/main/kotlin/com/stella/bookexam/member/repository/MemberRepository.kt:46-69 | three outcomes. `false` exactly when the guard fails. An exception out of the call exactly when the guard passes but the id is already stored, the entity breaks its constraints or the username is taken: the assigned id defers the insert, and with it the primary-key, constraint and unique-username checks, to the commit. Stored exactly otherwise, and then exactly the new valid member, with the given books and stamp, is added. Any other outcome leaves the table unchanged, and unique usernames are preserved |
| MemberRepo.MemberRepository.UpdateMember | member/src/main/kotlin/com/stella/bookexam/member/repository/MemberRepository.kt:71-82 | true exactly for a stored id and a username of 1..50 characters (blank allowed); then username and whole book map replaced; otherwise no change |
| MemberRepo.MemberRepository.UpdateUsername | member/src/main/kotlin/com/stella/bookexam/member/repository/MemberRepository.kt:84-94 | the same guard; only the username changes |
| MemberRepo.MemberRepository.AddBook | member/src/main/kotlin/com/stella/bookexam/member/repository/MemberRepository.kt:102-111 | true exactly for a stored id; then the book is mapped to the price in that member's map; otherwise no change |
| MemberRepo.MemberRepository.Delete | member/src/main/kotlin/com/stella/bookexam/member/controller/MemberController.kt:303-311 | true exactly when the id was stored; the row is gone and nothing else changes |
| MemberApi.EntryValue | member/src/main/kotlin/com/stella/bookexam/member/controller/MemberController.kt:255-258 | a patched entry converts exactly when it is a number that fits an `Int` or a text `toInt` accepts; null, booleans, arrays and objects never convert |
| MemberApi.DtoFieldsNotNull | member/src/main/kotlin/com/stella/bookexam/member/controller/MemberController.kt:416-418 | `isDtoFieldsNotNull`: username and id present and not blank, and a book map present |
| MemberApi.EntryNumberPrintedThenParsed | member/src/main/kotlin/com/stella/bookexam/member/controller/MemberController.kt:257-258 | for a number, that is exactly printing it and parsing the text |
| MemberApi.NullEntryFails | member/src/main/kotlin/com/stella/bookexam/member/controller/MemberController.kt:257-258 | a null entry does not delete its key: it fails |
| MemberApi.ConvertEntries | member/src/main/kotlin/com/stella/bookexam/member/controller/MemberController.kt:254-259 | the patched map converts exactly when every entry does, and then has the same keys with the converted values |
| MemberApi.ConvertedAll | member/src/main/kotlin/com/stella/bookexam/member/controller/MemberController.kt:255-259 | a map of converted entries covering every key is the conversion |
| MemberApi.NotAllConverted | member/src/main/kotlin/com/stella/bookexam/member/controller/MemberController.kt:255-259 | one entry that does not convert fails the whole conversion |
| MemberApi.PatchMember | member/src/main/kotlin/com/stella/bookexam/member/controller/MemberController.kt:231-270 | an accepted patch keeps the id and the stamp; a rejection is 400 or 500; a body that is not an object changes nothing |
| MemberApi.PatchBooksPolicy | member/src/main/kotlin/com/stella/bookexam/member/controller/MemberController.kt:246-266 | absent keeps the map, null empties it, an object overwrites exactly the keys it names and keeps every other key |
| MemberApi.PatchUsernamePolicy | member/src/main/kotlin/com/stella/bookexam/member/controller/MemberController.kt:234-244 | a wrong-typed username gives 400 whatever the books say; otherwise text replaces it and absent or null keep it |
| MemberApi.PatchMemberIdempotent | member/src/main/kotlin/com/stella/bookexam/member/controller/MemberController.kt:231-270 | applying an accepted patch again changes nothing more |
| MemberApi.MergeStep | member/src/main/kotlin/com/stella/bookexam/member/controller/MemberController.kt:255-259 | writing one more entry after the merge is merging one more entry |
| MemberApi.MergeSelf | member/src/main/kotlin/com/stella/bookexam/member/controller/MemberController.kt:253-260 | `putAll` of the map into itself (the aliased `temp`) changes nothing |
| MemberApi.MergeLoop | member/src/main/kotlin/com/stella/bookexam/member/controller/MemberController.kt:253-261 | the loop fails only on an entry that does not convert; otherwise it has converted every entry and the result is the stored map overwritten with them |
| MemberApi.MergeBookEntries | member/src/main/kotlin/com/stella/bookexam/member/controller/MemberController.kt:253-261 | the loop computes exactly the merge PatchMember specifies |
| MemberApi.MemberController.CreateMemberRabbit | member/src/main/kotlin/com/stella/bookexam/member/controller/MemberController.kt:42-52 | stores the lowercased member with no books exactly when the fields are present, the guard and the entity constraints hold and neither id nor name is taken; every failure leaves the table unchanged |
| MemberApi.MemberController.CreateMemberAsWritten | member/src/main/kotlin/com/stella/bookexam/member/controller/MemberController.kt:60-87 | 400 on the field check, 409 for a taken lowercased username; then 400 exactly when the commit throws (guard passed, and the id already stored or the constraints broken), since only that reaches the `catch`; otherwise 201 whether or not anything was stored |
| MemberApi.MemberController.CreateMember | member/src/main/kotlin/com/stella/bookexam/member/controller/MemberController.kt:60-87 | corrected handler: 409 exactly for a taken lowercased username; 201 exactly when the fields pass, the guard and the entity constraints hold and the id is free, and then the member is stored with the lowercased name and no books; otherwise 400 and no change |
| MemberApi.MemberController.GetAllMembers | member/src/main/kotlin/com/stella/bookexam/member/controller/MemberController.kt:91-104 | the lowercased filter matches usernames exactly; without it every member; each converted once |
| MemberApi.MemberController.GetMemberById | member/src/main/kotlin/com/stella/bookexam/member/controller/MemberController.kt:112-123 | blank id 400, unknown id 404, otherwise 200 with exactly that member |
| MemberApi.MemberController.UpdateMember | member/src/main/kotlin/com/stella/bookexam/member/controller/MemberController.kt:132-170 | checks in order 400, 409, 404, 400 (fields), 400 (repository); 204 exactly when all pass, then username and map replaced; otherwise no change |
| MemberApi.MemberController.UpdateUsername | member/src/main/kotlin/com/stella/bookexam/member/controller/MemberController.kt:179-203 | blank id 400, unknown 404; 204 exactly for a non-blank username of at most 50 characters, then only it changes |
| MemberApi.MemberController.MergePatchMember | member/src/main/kotlin/com/stella/bookexam/member/controller/MemberController.kt:208-286 | 404, 400 for an unparsable body, 409 for an `id` key, then PatchMember's rejection status; 204 exactly when accepted and the update guard holds, and the row becomes PatchMember of it; otherwise nothing is written |
| MemberApi.MemberController.DeleteMember | member/src/main/kotlin/com/stella/bookexam/member/controller/MemberController.kt:295-313 | blank id 400 with no change; 204 exactly when the member existed; the row is gone |
| MemberApi.MemberController.AddBookToMember | member/src/main/kotlin/com/stella/bookexam/member/controller/MemberController.kt:324-366 | 404, then 409 for a name already held, then 400 for a bad price, seller or name; the book service is called only after those pass; 200 exactly when both remote calls answer 200, and then exactly name→price is added |
| MemberApi.LongUsernameExhibit | member/src/main/kotlin/com/stella/bookexam/member/controller/MemberController.kt:76-86 | a 51-character username: the as-written handler answers 201 and stores nothing; the corrected one answers 400 |
| MemberApi.ControlCharUsernameExhibit | member/src/main/kotlin/com/stella/bookexam/member/controller/MemberController.kt:76-86 | a username of one control character passes the field check and the repository guard, fails `@NotBlank` at commit, and the as-written handler answers 400 with nothing stored |
| MemberApi.DuplicateIdExhibit | member/src/main/kotlin/com/stella/bookexam/member/controller/MemberController.kt:76-86 | for any table that holds id "m1" and no member named "cd", a body with id "m1" and username "cd" passes the field check, the uniqueness check and the repository guard; the primary key is refused at commit, the as-written handler answers 400, and the table is unchanged |
| StoreDomain.Transform | store/src/main/kotlin/com/stella/bookexam/store/domain/converter/BookForSaleConverter.kt:8-17 | name, seller, price and stamp copied; a missing id stays missing |
| StoreDomain.TransformRoundTrip | store/src/main/kotlin/com/stella/bookexam/store/domain/converter/BookForSaleConverter.kt:10-14 | the id text parses back to the id, and the listing is rebuilt from its record |
| StoreDomain.TransformAll | store/src/main/kotlin/com/stella/bookexam/store/domain/converter/BookForSaleConverter.kt:19-21 | the list converter keeps length and order and converts each listing |
| StoreDomain.ValidBookForSale | store/src/main/kotlin/com/stella/bookexam/store/domain/model/BookForSale.kt:13-18 | the annotations: name and seller each not empty once trimmed and at most 32 characters; the price is required (a non-null `Int`), with no bound on its value |
| StoreRepo.InsertExtendsQueries | store/src/main/kotlin/com/stella/bookexam/store/repository/StoreRepository.kt:13-15 | inserting a row under a fresh key adds it to exactly the name, price and seller queries it matches and changes no other answer |
| StoreRepo.RowsNamed | store/src/main/kotlin/com/stella/bookexam/store/repository/StoreRepository.kt:13 | the stored listings whose name is exactly the given one |
| StoreRepo.RowsPriced | store/src/main/kotlin/com/stella/bookexam/store/repository/StoreRepository.kt:14 | the stored listings whose price is exactly the given one |
| StoreRepo.RowsSoldBy | store/src/main/kotlin/com/stella/bookexam/store/repository/StoreRepository.kt:15 | the stored listings whose seller is exactly the given one |
| StoreRepo.PickNewest | store/src/main/kotlin/com/stella/bookexam/store/repository/StoreRepository.kt:79-82 | taking the newest remaining row keeps the selection newest first |
| StoreRepo.PickedAnswer | store/src/main/kotlin/com/stella/bookexam/store/repository/StoreRepository.kt:79-82 | the selection's rows are stored and distinct, and none left out is newer than one taken |
| StoreRepo.StoreRepository.FindOne | store/src/main/kotlin/com/stella/bookexam/store/controller/StoreController.kt:88 | `findOne` finds a row exactly when the id is stored, and that row |
| StoreRepo.StoreRepository.CreateBookForSale | store/src/main/kotlin/com/stella/bookexam/store/repository/StoreRepository.kt:38-57 | constraint violation exactly for an invalid listing; stored exactly when valid and an id is left, then under a fresh id other than -1 with the stamp, one row more; otherwise no change |
| StoreRepo.StoreRepository.Update | store/src/main/kotlin/com/stella/bookexam/store/repository/StoreRepository.kt:59-77 | true exactly for a stored id, non-blank name and seller and a price of at least 1; then exactly those three fields change; otherwise no change |
| StoreRepo.StoreRepository.Delete | store/src/main/kotlin/com/stella/bookexam/store/controller/StoreController.kt:105-109 | true exactly when the id was stored; the row is gone and nothing else changes |
| StoreRepo.StoreRepository.Newest | store/src/main/kotlin/com/stella/bookexam/store/repository/StoreRepository.kt:79-82 | a key whose row is at least as new as every other |
| StoreRepo.StoreRepository.GetLast10PostedBooksForSale | store/src/main/kotlin/com/stella/bookexam/store/repository/StoreRepository.kt:79-82 | ten rows, or all when fewer; each stored, none twice, newest first, and no row left out is newer than a returned one |
| StoreApi.PatchListing | store/src/main/kotlin/com/stella/bookexam/store/controller/StoreController.kt:144-185 | an accepted patch keeps the id and the stamp; a body that is not an object changes nothing |
| StoreApi.ValidDto | store/src/main/kotlin/com/stella/bookexam/store/controller/StoreController.kt:214-227 | `validDto`: name, seller and price present and no id |
| StoreApi.PatchListingRejects | store/src/main/kotlin/com/stella/bookexam/store/controller/StoreController.kt:149-180 | rejected exactly when name or seller is neither text nor null, or a price is present and not a number; an explicit null price is rejected |
| StoreApi.PatchListingPolicy | store/src/main/kotlin/com/stella/bookexam/store/controller/StoreController.kt:144-185 | absent or null keep name and seller, text replaces them; absent keeps the price, a number replaces it by its low 32 bits |
| StoreApi.PatchListingIdempotent | store/src/main/kotlin/com/stella/bookexam/store/controller/StoreController.kt:144-185 | applying an accepted patch again changes nothing more |
| StoreApi.ApplyListingPatch | store/src/main/kotlin/com/stella/bookexam/store/controller/StoreController.kt:144-185 | the handler's step-by-step locals compute exactly PatchListing |
| StoreApi.StoreController.RegisterBookForSale | store/src/main/kotlin/com/stella/bookexam/store/controller/StoreController.kt:204-211 | the repository outcome for the record's fields: violation exactly when invalid, stored exactly when valid and an id is left, then exactly that listing added |
| StoreApi.StoreController.CreateBookForSaleRabbit | store/src/main/kotlin/com/stella/bookexam/store/controller/StoreController.kt:28-31 | a message with all three fields and a valid listing adds exactly that listing under some fresh id; any other message changes nothing |
| StoreApi.StoreController.CreateBookForSale | store/src/main/kotlin/com/stella/bookexam/store/controller/StoreController.kt:40-58 | 400 when `validDto` fails; then 409 exactly for an invalid listing, 201 exactly when valid and an id is left, with exactly that listing stored under the returned id; otherwise no change |
| StoreApi.StoreController.GetBooksForSale | store/src/main/kotlin/com/stella/bookexam/store/controller/StoreController.kt:63-75 | a missing or blank name lists every listing, any other exactly the listings with that name, each converted once |
| StoreApi.StoreController.GetBookForSaleById | store/src/main/kotlin/com/stella/bookexam/store/controller/StoreController.kt:84-90 | 200 exactly for a stored id, with exactly that listing; 404 otherwise |
| StoreApi.StoreController.DeleteBookForSale | store/src/main/kotlin/com/stella/bookexam/store/controller/StoreController.kt:99-110 | 204 exactly for a stored id, and exactly that listing is removed; 404 otherwise |
| StoreApi.StoreController.MergePatchBookForSale | store/src/main/kotlin/com/stella/bookexam/store/controller/StoreController.kt:115-202 | 400 for a non-numeric id, 404, 400 unparsable, 409 for an `id` key; 204 exactly when accepted and the repository guard holds, and the row becomes PatchListing of it; otherwise nothing is written |
| UserDomain.NewUser | gateway/src/main/kotlin/com/stella/bookexam/gateway/domain/model/UserEntity.kt:14-26 | the given fields with `enabled` defaulting to true; valid exactly when neither username nor password is empty once trimmed |
| UserDomain.ValidUser | gateway/src/main/kotlin/com/stella/bookexam/gateway/domain/model/UserEntity.kt:14-26 | the annotations: username and password present and not empty once trimmed; roles and `enabled` present |
| UserDomain.PrefixRoles | gateway/src/main/kotlin/com/stella/bookexam/gateway/service/UserService.kt:27 | `roles.map { "ROLE_$it" }.toSet()`: each requested role behind the prefix |
| UserDomain.PrefixRolesMembers | gateway/src/main/kotlin/com/stella/bookexam/gateway/service/UserService.kt:27 | a stored role is exactly a requested role behind `ROLE_` |
| UserDomain.PrefixRolesCount | gateway/src/main/kotlin/com/stella/bookexam/gateway/service/UserService.kt:27 | as many roles are stored as were requested |
| UserDomain.Transform | gateway/src/main/kotlin/com/stella/bookexam/gateway/domain/converter/UserConverter.kt:10-17 | username, stored hash, roles and `enabled` copied unchanged |
| UserDomain.TransformAll | gateway/src/main/kotlin/com/stella/bookexam/gateway/domain/converter/UserConverter.kt:19-21 | the list converter keeps length and order and converts each account |
| UserAccounts.UserRepository.FindUserByUsername | gateway/src/main/kotlin/com/stella/bookexam/gateway/service/UserService.kt:23 | finds an account exactly when that username is stored, and that account |
| UserAccounts.UserRepository.Save | gateway/src/main/kotlin/com/stella/bookexam/gateway/service/UserService.kt:29-31 | saved exactly when the entity is valid, under its username; otherwise no change |
| UserAccounts.UserService.CreateUserWithHashedPassword | gateway/src/main/kotlin/com/stella/bookexam/gateway/service/UserService.kt:19-35 | true exactly for a new username and a password hash that are both non-empty once trimmed; then exactly one account is added, with the hash (not the plaintext), the prefixed roles and `enabled`; otherwise no change |
| AuthApi.ChosenRoles | gateway/src/main/kotlin/com/stella/bookexam/gateway/controller/AuthController.kt:64-70 | the requested roles are {"ADMIN"} or {"USER"} |
| AuthApi.ChosenRolesIgnoreCase | gateway/src/main/kotlin/com/stella/bookexam/gateway/controller/AuthController.kt:64 | two roles differing only in letter case choose the same role set |
| AuthApi.AdminExactly | gateway/src/main/kotlin/com/stella/bookexam/gateway/controller/AuthController.kt:64-70 | a role chooses ADMIN exactly when it lowercases to "admin", and the account then holds ROLE_ADMIN; every other role gives ROLE_USER |
| AuthApi.MemberEvent | gateway/src/main/kotlin/com/stella/bookexam/gateway/controller/AuthController.kt:77-81 | the event's id and username are both the name, and it holds no books |
| AuthApi.MemberEventConsistent | gateway/src/main/kotlin/com/stella/bookexam/gateway/controller/AuthController.kt:61-81 | the member service's own lowercasing of the event gives back the registered name, equal to the id |
| AuthApi.AuthController.SignIn | gateway/src/main/kotlin/com/stella/bookexam/gateway/controller/AuthController.kt:56-96 | 204 exactly when the lowercased name is new and it and the password hash are non-empty once trimmed, with the chosen roles prefixed; 400 otherwise with nothing stored and no event; on 204 exactly one event for the lowercased name is sent unless publishing throws |

## Left out

- HTTP routing, content negotiation and Spring Security (the ant matchers and `UserSecurity.checkId`): framework configuration, not service logic.
- Path variables typed `Long` in the source are `Int64` parameters, so Spring's rejection of a non-numeric path before the handler runs is not modelled.
- JSON parsing: the handlers take the parsed tree, or `None` for a body that does not parse. `JOther` stands for booleans and arrays only.
- Floating-point numbers have no `Json` value and lie outside the model. The source's `isNumber` accepts them and `intValue()`/`asInt()` truncates them (a price of 2.5 is stored as 2); the model has only whole numbers, narrowed to 32 bits.
- MemberApi.EntryValue: a `books` value that `convertValue` cannot turn into a map, or an entry that `toInt()` cannot parse, throws an exception the handler does not catch; the model answers it with status 500 and no change.
- The AMQP broker: events are appended to `AuthController.sent`, and `publishFails` stands for a throwing publish. `BookController.postBookForSale` only publishes and is not part of this model.
- The member service's remote calls to the book service (Hystrix commands with fallbacks) are replaced by their statuses, passed in.
- Password hashing (BCrypt) is an arbitrary function `encode`. The login step after registration (AuthController.kt:87-94) and the `/user` endpoint are not part of this model.
- The clock (`ZonedDateTime.now()`) is the `now` parameter; time zones and the stamp's precision are left out.
- The ORM: re-validation of annotations when an update's transaction commits (so an update that leaves a name empty once trimmed, such as a control character that the Kotlin checks let through, succeeds in the model) and the flush of a managed entity that a handler changed before a refused repository update are left out. Persistence is a map. The checks made at create time are explicit. A book or a listing has a generated id, so it is inserted and validated inside `persist`. A member has an assigned id, so `persist` only queues its insert; the primary key, its validation and its unique-username check are checked at commit, after `createMember`'s `try` (MemberRepo.CreateOutcome).
- MemberRepo.MemberRepository.UpdateMember, MemberRepo.MemberRepository.UpdateUsername, MemberApi.MemberController.MergePatchMember, BookRepo.BookRepository.UpdateBook, BookApi.BookController.MergePatchBook: the unique columns (a member's `username`, a book's `name`) are not checked on update. These members accept a username or book name that another row already holds and answer true or 204. In the source the commit hits the `unique = true` column, and that exception is not the `ConstraintViolationException` the handlers catch.
- MemberRepository.findByUsername is not used by any modelled handler and is left out.
- Case conversion covers ASCII letters only, and string length counts characters rather than UTF-16 code units.
- Common.IsWhitespace: the space separators are those of Unicode 6.2, which Java 8 uses (U+180E included); Java 9 and later drop U+180E.
- Common.DigitZero: the decimal digits are those of Unicode 6.2, which Java 8 uses; later Java versions accept more scripts. Digits outside the Basic Multilingual Plane are surrogate pairs in Java and are not digits there or here.
- BookRepo.BookRepository.CreateBook, StoreRepo.StoreRepository.CreateBookForSale: the `-1` answer for an entity persisted without an id cannot happen in the model, where a stored entity always has one.
- StoreRepo.Stamp: a listing without `createdOn` would sort as 0; every stored listing has a stamp, so this default is never used.
- Derived queries return sets; the order rows come back in is left open.

## Findings

| source | as written | input that shows it | evidently intended | confidence | as-written member | corrected member |
|---|---|---|---|---|---|---|
| member/src/main/kotlin/com/stella/bookexam/member/controller/MemberController.kt:76-86 | the result of `repo.createMember` is ignored and the handler answers 201 | a body with id "m1", no books and a username of 51 letters `a`: the field check and the uniqueness check pass, the repository refuses the name as too long, and the answer is 201 with no member stored | answer 400 when the repository refuses, so that 201 means the member is stored | not executed | MemberApi.MemberController.CreateMemberAsWritten, MemberApi.LongUsernameExhibit | MemberApi.MemberController.CreateMember |
