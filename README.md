# Article routines of Rappel-PHP-POO, modelled in Dafny

The repository is a set of PHP exercises built around blog articles. They
turn titles into slugs, coerce loosely typed arrays into canonical articles,
validate decoded JSON, generate seed data and keep slugs unique inside
repositories. Each core PHP file is one Dafny module. Two more modules are
shared by all of them:

- `Php` (php.dfy) holds the piece of the PHP runtime these routines rely on:
  - loosely typed values, and arrays as ordered key/value lists;
  - `$a[$k]`, `isset`, `??` and `$a[$k] = $v`;
  - the `(string)`, `(int)` and `(bool)` casts, and `empty()`;
  - `trim()`, `explode`/`implode`, and ASCII case mapping.
- `Slug` (slug.dfy) holds `slugify`, which appears three times in the
  repository, and `FeaturedArticle`'s prefixed variant.

| module | file of the repository | form |
|---|---|---|
| `Encapsulation` | Encapsulation_visibility/encapsulation.php | classes `Article`, `ArticleCounter`, `ArticleRepository` (fields updated in place) |
| `Domain`, `MemoryRepo` | c3-php/src/Infrastructure/MemoryArticleRepository.php | class `MemoryArticleRepository` over a `seq` field |
| `JsonRepo` | c3-php/src/Infrastructure/JsonArticleRepository.php | class `JsonArticleRepository`; the file is an abstract field |
| `SeedGenerator` | CLI_scripts/bin/seed_generator.php | loop methods proved against functions |
| `TypesSyntax` | Types_syntaxe/exercise.php | functions and lemmas |
| `FilesJson` | Files_JSON/script.php | loop methods proved against functions |
| `ArrayFunctions` | Fonctions_tableaux/exercise.php | functions; `usort` as an in-place sort of an `array` |
| `ArticleFactory` | blog-tools/src/Seed/ArticleFactory.php | `make` as a method with its `for` and `while` loops |
| `ExceptionsGestion` | Exceptions_gestion/exercise.php | functions, and `main`'s loop as a method |
| `ClassesProperties` | classes_properties/exercise.php | functions and lemmas (the `User` fields never change) |

How the model handles the source's effects:

- Exceptions and fatal exits become `Err` results. Each one leaves the state
  as the code leaves it.
- Random draws, the clock and the bodies of `Str::slug` and `Str::excerpt`
  are parameters, not modelled.
- Reading and writing files, and JSON encoding and decoding, are not
  modelled. Their outcomes are parameters or abstract fields.

Behaviour worth noting, which the model follows:

- The CSV seed pipeline does not clamp negative view counts. Its
  `'Unknown'` author default never applies to a parsed CSV row. `(bool)"false"`
  is true.
- `buildArticle` does clamp views with `max(0, ...)`, and its author default
  is `'N/A'`.
- The two c3-php repositories ignore ids and always append. Only the
  encapsulation exercise's repository is keyed by id.
- `JsonArticleRepository` writes its file directly, with no temporary file
  and no rename. Content that decodes to a falsy value (invalid JSON, `null`,
  `[]`) reads as an empty list, not as an error.
- `slugify` works on bytes and keeps only `[a-z0-9]`, so an accented letter
  acts as a separator. The comment in the encapsulation demo
  (Encapsulation_visibility/encapsulation.php:114) expects
  `encapsulation-visibilite-en-php`, but the code gives
  `encapsulation-visibilit-en-php`. `Encapsulation.EncapsulationTitleSlug`
  proves the latter.

## Model

| member | source | states |
|---|---|---|
| Slug.CollapseRunsShape | Encapsulation_visibility/encapsulation.php:67 | The replacement output consists of word characters and single dashes only: no "--". |
| Slug.CollapseRunsFirst | Encapsulation_visibility/encapsulation.php:67 | The replacement output is empty iff the input is, and starts with '-' iff the input starts with a non-word character. |
| Slug.CollapseRunsNoUpper | Encapsulation_visibility/encapsulation.php:66-67 | On lowercased text the replacement introduces no upper-case letter. |
| Slug.WordCharsCollapseRuns | Encapsulation_visibility/encapsulation.php:67 | The replacement keeps exactly the letters and digits of its input, in order. |
| Slug.TrimDashesParts | Encapsulation_visibility/encapsulation.php:68 | trim($s, '-') splits s into a run of dashes, the result and another run of dashes. |
| Slug.TrimDashesMakesSlug | Encapsulation_visibility/encapsulation.php:68 | Trimming dashes from well-formed replacement output gives a well-formed slug. |
| Slug.SlugifyKeepsWordChars | Encapsulation_visibility/encapsulation.php:64-69 | The slug holds every letter and digit of the lowercased title, in order, plus dashes and nothing else. |
| Slug.SlugifyIsSlug | Encapsulation_visibility/encapsulation.php:64-69 | Every slug uses only [a-z0-9-], has no dash at either end and no "--". |
| Slug.SlugifyOfSlug | Encapsulation_visibility/encapsulation.php:64-69 | A well-formed slug is its own slug. |
| Slug.SlugifyIdempotent | Encapsulation_visibility/encapsulation.php:64-69 | slugify is idempotent, and fixes exactly the well-formed slugs. |
| Slug.SlugifyHead | Encapsulation_visibility/encapsulation.php:64-69 | A title starting with a letter or digit gives a non-empty slug starting with that character, lowercased. |
| Slug.FeaturedPrefixSlug | Encapsulation_visibility/encapsulation.php:75-78 | "featured-" followed by t is a well-formed slug iff t is non-empty (given t is a slug). |
| Slug.FeaturedSlugifyIsSlug | Encapsulation_visibility/encapsulation.php:75-78 | The featured slug starts with "featured-" and is well formed iff the plain slug is non-empty. |
| Slug.SlugifyWord | Encapsulation_visibility/encapsulation.php:64-69 | A title of letters and digits only slugs to its lowercase. |
| Slug.SlugifyJoin | Encapsulation_visibility/encapsulation.php:64-69 | A word, a non-empty run of other characters and a rest starting with a word character slug to the lowercased word, one dash and the rest's slug. |
| Slug.Slugify2 | Encapsulation_visibility/encapsulation.php:64-69 | Two words with a separator run between them slug to the lowercased words joined by one dash. |
| Slug.Slugify3 | Encapsulation_visibility/encapsulation.php:64-69 | Three words with separator runs between them slug to the lowercased words joined by dashes. |
| Slug.Slugify4 | Encapsulation_visibility/encapsulation.php:64-69 | Four words with separator runs between them slug to the lowercased words joined by dashes. |
| Php.TrimSpec | Types_syntaxe/exercise.php:19 | trim() removes a run of " \t\n\r\0\x0B" from each end and leaves a trimmed string. |
| Php.TrimFixpoint | Types_syntaxe/exercise.php:19 | trim() changes exactly the untrimmed strings, so it is idempotent. |
| Php.IntStringRoundTrip | Files_JSON/script.php:60 | (int) of the decimal text of any integer gives the integer back. |
| Php.NatToStringInjective | Files_JSON/script.php:65 | Distinct numbers have distinct decimal texts. |
| Php.StringToIntOfNegative | CLI_scripts/bin/seed_generator.php:87 | (int)"-d" is the negated value of the digits d. |
| Php.ExplodeImplode | CLI_scripts/bin/seed_generator.php:49 | explode of implode gives the parts back when no part holds the separator. |
| Php.ImplodeExplode | CLI_scripts/bin/seed_generator.php:49 | implode of explode gives the text back. |
| Php.LookupSpec | Types_syntaxe/exercise.php:15-17 | $a[$k] is found iff some entry has key k, and is then the first such entry's value. |
| Php.SetKeyLookup | CLI_scripts/bin/seed_generator.php:74 | After $a[$k] = $v, key k reads v and every other key reads as before. |
| Php.CoalesceNull | CLI_scripts/bin/seed_generator.php:85-89 | $a[$k] ?? $d is null iff the key is unset (missing or null) and $d is null. |
| Php.CoalesceNullDefault | CLI_scripts/bin/seed_generator.php:85-89 | With a null default, $a[$k] ?? null reads the same as $a[$k]. |
| Php.CoalesceDefaults | CLI_scripts/bin/seed_generator.php:85-89 | For a set key the default makes no difference; for an unset key two defaults give the same result iff they are equal. |
| Php.StringTruthiness | CLI_scripts/bin/seed_generator.php:88 | (bool) of a string is false exactly for "" and "0"; (bool)"false" is true. |
| Php.IntCastRoundTrip | Files_JSON/script.php:60 | The string cast then the int cast is the identity on integers. |
| Php.NatToString | Files_JSON/script.php:65 | The decimal text of a number is non-empty and made of digits only. |
| Php.DigitsValueOfNatToString | Files_JSON/script.php:65 | The digits of a number's decimal text have that number as their value. |
| Php.StringToIntOfDigits | CLI_scripts/bin/seed_generator.php:87 | (int) of a string of digits is their decimal value. |
| Php.TrimOfTrimmed | Types_syntaxe/exercise.php:19 | trim() leaves a trimmed string unchanged. |
| Php.SkipRegexSpace | classes_properties/exercise.php:18 | Skipping a run of /\s/ characters never lengthens the text, and stops at a character that is not whitespace. |
| Encapsulation.ArticleCounter.constructor | Encapsulation_visibility/encapsulation.php:12 | The counter starts at 0. |
| Encapsulation.Article.Init | Encapsulation_visibility/encapsulation.php:17-19 | A built article holds the given id, kind, title and tags, and is valid: its slug is the slug of its title for its kind. |
| Encapsulation.Article.Make | Encapsulation_visibility/encapsulation.php:14-21 | id <= 0 is InvalidId; a blank title is EmptyTitle; on either error the counter is unchanged; otherwise a valid article with the trimmed title and the counter one higher. |
| Encapsulation.Article.FromTitle | Encapsulation_visibility/encapsulation.php:24-27 | As Make, with no tags. |
| Encapsulation.Article.SetTitle | Encapsulation_visibility/encapsulation.php:35-41 | A blank title is refused with title and slug unchanged; otherwise title == trim(t) and slug == slugify of it for the article's kind; tags never change. |
| Encapsulation.Article.AddTag | Encapsulation_visibility/encapsulation.php:54-59 | A blank tag is refused with tags unchanged; otherwise the trimmed tag is appended at the end; title and slug never change. |
| Encapsulation.Article.ToArray | Encapsulation_visibility/encapsulation.php:44-52 | The array holds the article's id, title, slug and tags; for a valid article its id is positive, its title trimmed and non-empty, and its slug the slug of that title for the article's kind. |
| Encapsulation.TitleOfTrim | Encapsulation_visibility/encapsulation.php:37-38 | A title that is not blank trims to a non-empty, trimmed title. |
| Encapsulation.IndexOf | Encapsulation_visibility/encapsulation.php:99 | The position of the entry with that id, or -1 exactly when no entry has it. |
| Encapsulation.Find | Encapsulation_visibility/encapsulation.php:103-106 | $articles[$id] ?? null: None iff no entry has the id, else a stored entry with that id. |
| Encapsulation.SaveById | Encapsulation_visibility/encapsulation.php:86-100 | Fails, with DuplicateSlug, exactly when a stored article with a different id has the same slug. |
| Encapsulation.PutShape | Encapsulation_visibility/encapsulation.php:99 | Storing under an id keeps one entry per id; a known id keeps the size, a new id is appended. |
| Encapsulation.PutFind | Encapsulation_visibility/encapsulation.php:99-106 | After storing, findById gives the new article for its id and the old answer for every other id. |
| Encapsulation.PutFindOther | Encapsulation_visibility/encapsulation.php:99-106 | The same for one other id, when ids stay distinct after storing. |
| Encapsulation.IndexOfUnique | Encapsulation_visibility/encapsulation.php:99 | With one entry per id, the index of an entry's id is that entry's position. |
| Encapsulation.SaveByIdKeepsInvariant | Encapsulation_visibility/encapsulation.php:92-99 | A successful save keeps the invariant: one entry per id, and no two entries share a slug. |
| Encapsulation.ArticleRepository.constructor | Encapsulation_visibility/encapsulation.php:84 | A new repository is empty. |
| Encapsulation.ArticleRepository.Save | Encapsulation_visibility/encapsulation.php:86-100 | A clash with another id fails with DuplicateSlug and leaves the store unchanged; otherwise the store becomes SaveById of the old store; the invariant is kept. |
| Encapsulation.ArticleRepository.FindById | Encapsulation_visibility/encapsulation.php:103-106 | None iff no stored entry has the id, else the stored entry with that id. |
| Encapsulation.RepositoryDemo | Encapsulation_visibility/encapsulation.php:125-139 | The demo's saves: a and b stored, c (a's slug, id 3) refused, and an update of id 1 overwrites in place. |
| Encapsulation.DemoArticles | Encapsulation_visibility/encapsulation.php:110-116 | After the Article and the FeaturedArticle are built the counter reads 2; the arrays hold the expected ids, slugs and tags. |
| Encapsulation.DemoSlugs | Encapsulation_visibility/encapsulation.php:114-115 | A plain slug not starting with 'f' never equals a featured slug. |
| Encapsulation.EncapsulationTitleSlug | Encapsulation_visibility/encapsulation.php:110-114 | 'Encapsulation & visibilité en PHP' slugs to "encapsulation-visibilit-en-php". |
| Encapsulation.LireTitleSlug | Encapsulation_visibility/encapsulation.php:111 | 'Lire moins, comprendre plus' slugs to "lire-moins-comprendre-plus". |
| Encapsulation.DemoFeaturedSlug | Encapsulation_visibility/encapsulation.php:111-115 | The featured demo article's slug is "featured-lire-moins-comprendre-plus". |
| Domain.Slugs | c3-php/src/Infrastructure/MemoryArticleRepository.php:31 | One slug per article, in order, and a string is among them iff some stored article has it as its slug. |
| Domain.AppendIfSlugFree | c3-php/src/Infrastructure/MemoryArticleRepository.php:29-36 | Fails with DuplicateSlug iff some stored article has the slug; otherwise the old list with the article appended last. |
| Domain.AppendKeepsDistinct | c3-php/src/Infrastructure/MemoryArticleRepository.php:31-36 | A successful save keeps stored slugs pairwise distinct. |
| Domain.VerdictIgnoresId | c3-php/src/Infrastructure/MemoryArticleRepository.php:29-36 | The verdict depends on the slug alone. |
| Domain.SameIdBothStored | c3-php/src/Infrastructure/MemoryArticleRepository.php:29-36 | Two articles with the same id and different slugs are both stored. |
| Domain.ResaveRefused | c3-php/bin/seed.php:39-43 | Saving an article that is already stored is always refused. |
| MemoryRepo.MemoryArticleRepository.constructor | c3-php/src/Infrastructure/MemoryArticleRepository.php:13-18 | A new repository is empty and valid. |
| MemoryRepo.MemoryArticleRepository.All | c3-php/src/Infrastructure/MemoryArticleRepository.php:21-24 | all() is the stored list in insertion order; in a valid repository its slugs are pairwise distinct. |
| MemoryRepo.MemoryArticleRepository.Save | c3-php/src/Infrastructure/MemoryArticleRepository.php:29-36 | Succeeds iff no stored slug equals the new one; an error leaves the list unchanged; success appends the article last; pairwise-distinct slugs are kept. |
| JsonRepo.Load | c3-php/src/Infrastructure/JsonArticleRepository.php:16-26 | Fails with ReadFailed iff the file is unreadable; a non-empty result is the decoded content of a present file. |
| JsonRepo.EmptyReads | c3-php/src/Infrastructure/JsonArticleRepository.php:18-22 | A missing file, a falsy decode and a decoded [] all read as []. |
| JsonRepo.JsonArticleRepository.constructor | c3-php/src/Infrastructure/JsonArticleRepository.php:13 | The repository is bound to the given file state. |
| JsonRepo.JsonArticleRepository.All | c3-php/src/Infrastructure/JsonArticleRepository.php:16-26 | all() fails iff the file is unreadable; a non-empty list is exactly the decoded content of a present file; an empty list comes from a missing file, a falsy decode or a decoded []. |
| JsonRepo.JsonArticleRepository.Save | c3-php/src/Infrastructure/JsonArticleRepository.php:33-50 | A read error (ReadFailed) or a taken slug (DuplicateSlug) fails before any write, file unchanged; a failed write is WriteFailed; a good write makes all() the old list plus the article; if the stored slugs were distinct, success keeps them distinct. |
| JsonRepo.StoredIdAppended | c3-php/src/Infrastructure/JsonArticleRepository.php:33-50 | Saving, over a file holding the stored list, an article whose id is stored but whose slug is new succeeds, and all() then gives the stored list followed by the article. |
| SeedGenerator.FirstMissing | CLI_scripts/bin/seed_generator.php:56-62 | None iff every required header is present; otherwise the first absent one in the fixed order. |
| SeedGenerator.LastIndex | CLI_scripts/bin/seed_generator.php:73-75 | The last position of a header name, or -1 iff it is absent. |
| SeedGenerator.AssocLookup | CLI_scripts/bin/seed_generator.php:72-75 | Building the row assigns each header's key the field under its last occurrence; other keys are absent. |
| SeedGenerator.RowKeys | CLI_scripts/bin/seed_generator.php:72-75 | A parsed row has exactly the header names as keys, each holding the field under its last column (or ''). |
| SeedGenerator.Classify | CLI_scripts/bin/seed_generator.php:66-76 | A line is blank iff empty(trim), short iff not blank and with fewer fields than the header, else the header-keyed row. |
| SeedGenerator.ParseFromOk | CLI_scripts/bin/seed_generator.php:65-77 | Parsing succeeds iff no data line is short. |
| SeedGenerator.ParseFromError | CLI_scripts/bin/seed_generator.php:68-71 | The error names index + 2 of the first short line, with no short line before it. |
| SeedGenerator.ParseFromRows | CLI_scripts/bin/seed_generator.php:65-77 | On success the rows are those of the non-blank lines, in order. |
| SeedGenerator.RowsFromCount | CLI_scripts/bin/seed_generator.php:66 | One row per non-blank line. |
| SeedGenerator.BuildRow | CLI_scripts/bin/seed_generator.php:72-75 | The inner foreach builds exactly the header-keyed row. |
| SeedGenerator.ParseRows | CLI_scripts/bin/seed_generator.php:64-79 | The outer foreach computes the parse of the classified lines. |
| SeedGenerator.ReadCsvFrom | CLI_scripts/bin/seed_generator.php:44-79 | readCsvFrom's checks and loops compute ReadCsv of the text. |
| SeedGenerator.EmptyInputError | CLI_scripts/bin/seed_generator.php:44-47 | The empty-input error occurs exactly when the trimmed text is "" or "0". |
| SeedGenerator.HeaderCheck | CLI_scripts/bin/seed_generator.php:55-62 | A missing-header error occurs iff a required header is absent, and names the first absent one in order. |
| SeedGenerator.IncompleteRowLine | CLI_scripts/bin/seed_generator.php:65-71 | An IncompleteRow(n) error names the 1-based line n of the trimmed text: the first non-blank line with too few fields. |
| SeedGenerator.ShortLine | CLI_scripts/bin/seed_generator.php:65-71 | The same statement over any header and list of lines. |
| SeedGenerator.ReadCsvRows | CLI_scripts/bin/seed_generator.php:44-79 | Success implies non-blank input, all headers present, no short line, and one row per non-blank line in order. |
| SeedGenerator.CsvCoalesce | CLI_scripts/bin/seed_generator.php:85-89 | On a parsed row, $row[$k] ?? default is the column of k: the default never applies. |
| SeedGenerator.NormalizeCsvRow | CLI_scripts/bin/seed_generator.php:82-91 | On a parsed row the text fields are the trimmed columns, views the (int) cast and published false only for "" and "0". |
| SeedGenerator.CsvCasts | CLI_scripts/bin/seed_generator.php:87-88 | A view count "-d" stays negative; published "false" is true. |
| SeedGenerator.NormalizeAll | CLI_scripts/bin/seed_generator.php:114-115 | Each raw row normalised with its 1-based position as id. |
| SeedGenerator.EffectiveLimit | CLI_scripts/bin/seed_generator.php:109 | The limit is present iff given; it is the given value when that is at least 1, and exactly 1 when it is below 1. |
| SeedGenerator.NormalizeRows | CLI_scripts/bin/seed_generator.php:113-120 | The loop collects exactly the filtered normalised rows. |
| SeedGenerator.CollectItems | CLI_scripts/bin/seed_generator.php:113-124 | The loop then the slice give SeedItems. |
| SeedGenerator.KeptIndices | CLI_scripts/bin/seed_generator.php:116-119 | One kept position per output item, each below the row count. |
| SeedGenerator.KeptIndicesSelect | CLI_scripts/bin/seed_generator.php:116-119 | Item k is the article at the k-th kept position, and the filter keeps it. |
| SeedGenerator.KeptIndicesIncreasing | CLI_scripts/bin/seed_generator.php:114-120 | Kept positions strictly increase: the output keeps input order. |
| SeedGenerator.KeptIndicesComplete | CLI_scripts/bin/seed_generator.php:116-119 | Every article the filter keeps is in the output. |
| SeedGenerator.SeedSelection | CLI_scripts/bin/seed_generator.php:114-120 | Ids are positions before filtering: item k has id idx[k] + 1, and with published-only it is published. |
| SeedGenerator.ItemsAll | CLI_scripts/bin/seed_generator.php:116 | Without the flag every article is kept. |
| SeedGenerator.LimitPrefix | CLI_scripts/bin/seed_generator.php:122-124 | The output is a prefix of the items of length exactly min(\|items\|, max(1, n)), so non-empty when items are; without a limit it is all items. |
| SeedGenerator.RunSeed | CLI_scripts/bin/seed_generator.php:111-124 | The script body computes Seed of the text, flags and limit. |
| TypesSyntax.Default | Types_syntaxe/exercise.php:15-17 | After $row[$k] ??= $d, key k reads $row[$k] ?? $d. |
| TypesSyntax.DefaultOther | Types_syntaxe/exercise.php:15-17 | Filling one default leaves every other key unchanged. |
| TypesSyntax.DefaultsApplied | Types_syntaxe/exercise.php:15-23 | The fields buildArticle reads, after the three defaults, are the input's or the defaults. |
| TypesSyntax.TitleField | Types_syntaxe/exercise.php:15-19 | title is 'Sans titre' when absent or null, else the trimmed cast; always trimmed. |
| TypesSyntax.AuthorField | Types_syntaxe/exercise.php:16-31 | author is 'N/A' when absent or null, else the trimmed cast; always trimmed. |
| TypesSyntax.PublishedField | Types_syntaxe/exercise.php:17-30 | published is true when absent or null, else the (bool) cast. |
| TypesSyntax.ExcerptField | Types_syntaxe/exercise.php:20-21 | excerpt is null iff absent, null or blank once trimmed; else the trimmed string. |
| TypesSyntax.ViewsField | Types_syntaxe/exercise.php:23-24 | views is the (int) cast raised to at least 0, and 0 when missing. |
| TypesSyntax.SampleLookup | Types_syntaxe/exercise.php:5-11 | What the sample array holds under each key. |
| TypesSyntax.SampleBuilt | Types_syntaxe/exercise.php:5-37 | The sample gives the title and author unchanged, the digits' value as views, published true and a null excerpt. |
| TypesSyntax.SampleBuiltValues | Types_syntaxe/exercise.php:5-37 | The exercise's input builds title 'PHP 8 en pratique', a null excerpt, 300 views, published true and author 'Yassine'. |
| FilesJson.Generated | Files_JSON/script.php:63-73 | max(0, n) articles: none unless n is positive. |
| FilesJson.Generate | Files_JSON/script.php:63-73 | The for loop builds exactly Generated(n). |
| FilesJson.GeneratedFields | Files_JSON/script.php:66-72 | Generated article i has id i, title "Article Dynamique #i" and slug slugify(title). |
| FilesJson.GeneratedSlugHead | Files_JSON/script.php:69 | A generated slug starts with 'a', so it is neither empty nor "0". |
| FilesJson.SlugWordChars | Files_JSON/script.php:65-69 | The letters and digits of article i's slug end with the decimal text of i. |
| FilesJson.GeneratedSlugsDistinct | Files_JSON/script.php:64-69 | Distinct article numbers get distinct slugs. |
| FilesJson.GeneratedSlug | Files_JSON/script.php:65-69 | Article i >= 1 gets the slug "article-dynamique-" followed by the decimal digits of i. |
| FilesJson.GeneratedIds | Files_JSON/script.php:67 | The generated articles are numbered 1 to n by position. |
| FilesJson.SlugColumn | Files_JSON/script.php:79 | array_column: v is listed iff some article has slug v. |
| FilesJson.MergeExtras | Files_JSON/script.php:79-85 | The foreach computes Merge of the articles and the extras. |
| FilesJson.MergePrefixSpec | Files_JSON/script.php:80-85 | The merged list is the base followed by the new extras, the k-th given id \|base\| + k + 1. |
| FilesJson.NewExtrasSpec | Files_JSON/script.php:81 | An extra is appended iff its slug is not among the snapshot of generated slugs. |
| FilesJson.MergeIds | Files_JSON/script.php:82-83 | When the base is numbered by position from 1, so is the merged list. |
| FilesJson.SnapshotKeepsDuplicates | Files_JSON/script.php:79-85 | Two extras sharing an untaken slug are both appended. |
| FilesJson.Validate | Files_JSON/script.php:93-100 | The foreach computes the first failing check. |
| FilesJson.FirstInvalidSpec | Files_JSON/script.php:93-100 | No error iff every title and slug is a non-empty() string; otherwise the error names the first failing index, title before slug. |
| FilesJson.ZeroTitleRejected | Files_JSON/script.php:94 | empty() rejects the title "0". |
| FilesJson.GeneratedValid | Files_JSON/script.php:93-100 | Every generated article passes validation. |
| FilesJson.RunScript | Files_JSON/script.php:60-116 | The script's steps in order compute Run. |
| FilesJson.MergeOutcome | Files_JSON/script.php:76-100 | Over a valid, numbered base, an error can only name a merged extra, and ids stay 1..\|articles\|. |
| FilesJson.RunOutcome | Files_JSON/script.php:60-116 | Without extras the exit status is 0; an error names an extra; on success ids are 1..\|articles\| by position. |
| ArrayFunctions.PublishedMembers | Fonctions_tableaux/exercise.php:26 | An article is kept iff it is published; a missing flag counts as false. |
| ArrayFunctions.PublishedAppend | Fonctions_tableaux/exercise.php:26 | The filter distributes over concatenation, so it keeps input order. |
| ArrayFunctions.NormalizeAll | Fonctions_tableaux/exercise.php:28-37 | array_map gives one normalised entry per input article. |
| ArrayFunctions.NormalizedEntries | Fonctions_tableaux/exercise.php:28-37 | Entry i holds article i's id, slug (well formed), views, author and category. |
| ArrayFunctions.InsertShape | Fonctions_tableaux/exercise.php:39 | Insertion puts x after every element with at least its views and before the rest. |
| ArrayFunctions.InsertSorted | Fonctions_tableaux/exercise.php:39 | Inserting into a non-increasing list keeps it non-increasing. |
| ArrayFunctions.InsertPermutes | Fonctions_tableaux/exercise.php:39 | Insertion adds exactly x to the multiset. |
| ArrayFunctions.InsertStable | Fonctions_tableaux/exercise.php:39 | Insertion puts x after the entries with its views. |
| ArrayFunctions.SortDescSorted | Fonctions_tableaux/exercise.php:39 | The sort orders by views, highest first. |
| ArrayFunctions.SortDescPermutes | Fonctions_tableaux/exercise.php:39 | The sort is a permutation of its input. |
| ArrayFunctions.SortDescStable | Fonctions_tableaux/exercise.php:39 | Entries with equal views keep their relative order. |
| ArrayFunctions.InsertInto | Fonctions_tableaux/exercise.php:39 | Shifting in place inserts a[i] into the sorted run a[..i], leaving the rest untouched. |
| ArrayFunctions.SortByViews | Fonctions_tableaux/exercise.php:39 | The array is sorted in place to SortDesc of its old contents. |
| ArrayFunctions.BumpSpec | Fonctions_tableaux/exercise.php:46-47 | Counting one more article in c raises its count by one, leaves the others, and keeps the keys distinct. |
| ArrayFunctions.ReduceSpec | Fonctions_tableaux/exercise.php:41-51 | count = \|published\|, views_sum = their total views, by_category[c] = the number in c, the counts sum to count, and no category appears twice. |
| ArrayFunctions.Exercise | Fonctions_tableaux/exercise.php:26-51 | The script's arrays: the sorted normalised published articles, and their summary. |
| ArrayFunctions.SamplePublished | Fonctions_tableaux/exercise.php:5-26 | The sample's published articles are the first, second and fourth. |
| ArrayFunctions.SampleSummary | Fonctions_tableaux/exercise.php:5-51 | The sample summary is count 3, views_sum 630, by_category {php: 2, laravel: 1}. |
| ArrayFunctions.SampleOrder | Fonctions_tableaux/exercise.php:5-39 | Sorting the sample gives the ids 2, 4, 1. |
| ArrayFunctions.IntroTitleSlug | Fonctions_tableaux/exercise.php:8 | 'Intro Laravel' slugs to "intro-laravel". |
| ArrayFunctions.PracticeTitleSlug | Fonctions_tableaux/exercise.php:16 | 'PHP 8 en pratique' slugs to "php-8-en-pratique". |
| ArrayFunctions.ValidationTitleSlug | Fonctions_tableaux/exercise.php:18 | 'Validation FormRequest' slugs to "validation-formrequest". |
| ArrayFunctions.SampleSlugs | Fonctions_tableaux/exercise.php:5-37 | The sample normalizes to three entries with the slugs "intro-laravel", "php-8-en-pratique" and "validation-formrequest". |
| ArticleFactory.CandidateInjective | blog-tools/src/Seed/ArticleFactory.php:45-49 | Different suffix numbers give different candidate slugs. |
| ArticleFactory.TriedStep | blog-tools/src/Seed/ArticleFactory.php:47-49 | Each loop turn tries one new candidate. |
| ArticleFactory.FreeSlug | blog-tools/src/Seed/ArticleFactory.php:45-49 | The while loop returns the first candidate (base, then base-2, base-3, ...) not yet used. |
| ArticleFactory.CandidateForm | blog-tools/src/Seed/ArticleFactory.php:48 | Every candidate is the base, or the base followed by '-' and a number of at least 2. |
| ArticleFactory.UniqueSpec | blog-tools/src/Seed/ArticleFactory.php:57-60 | array_unique keeps each value once, no others, and the first value first. |
| ArticleFactory.TopicIn | blog-tools/src/Seed/ArticleFactory.php:11 | A drawn topic is in the topic list. |
| ArticleFactory.AuthorIn | blog-tools/src/Seed/ArticleFactory.php:9 | A drawn author is in the author list. |
| ArticleFactory.ExtraTagsSpec | blog-tools/src/Seed/ArticleFactory.php:57-59 | At most two extra tags, all topics. |
| ArticleFactory.TagsSpec | blog-tools/src/Seed/ArticleFactory.php:56-60 | One to three distinct tags, all topics, the first drawn tag first. |
| ArticleFactory.BuildRowFor | blog-tools/src/Seed/ArticleFactory.php:52-70 | The appended row has the formatted title, a suffix-form slug, the content and excerpt, a listed author and valid tags. |
| ArticleFactory.AppendFresh | blog-tools/src/Seed/ArticleFactory.php:47-50 | Appending an unused slug keeps slugs distinct and adds it to $used. |
| ArticleFactory.AppendRowFor | blog-tools/src/Seed/ArticleFactory.php:35-71 | Appending row \|rows\| + 1 keeps the numbered-rows description. |
| ArticleFactory.Make | blog-tools/src/Seed/ArticleFactory.php:18-74 | Fails iff a topic is given that is not listed; otherwise max(0, count) rows, row i as described (title, slug form, tags, author), pairwise distinct slugs, and row i's slug is the first of base, base-2, base-3, ... that rows 1 to i-1 have not taken. |
| ExceptionsGestion.ValidateArticle | Exceptions_gestion/exercise.php:6-13 | No error iff title and slug are set, strings and not ''; TitleRequired iff the title fails; SlugRequired iff the title passes and the slug fails. |
| ExceptionsGestion.RunMain | Exceptions_gestion/exercise.php:27-42 | loadJson's root check then main's loop compute Check. |
| ExceptionsGestion.FirstErrorIsFirst | Exceptions_gestion/exercise.php:38-40 | No error iff every article is valid; otherwise the error is the first invalid article's, all before it valid. |
| ExceptionsGestion.ExitZero | Exceptions_gestion/exercise.php:35-55 | The exit status is 0 iff the root is an array whose every value is a valid article. |
| ExceptionsGestion.StrictEmptyTest | Exceptions_gestion/exercise.php:7 | The test is === '': a string title passes iff non-empty, so "0" and " " pass. |
| ClassesProperties.SplitSpaces | classes_properties/exercise.php:18 | preg_split on /\s+/ always gives at least one piece. |
| ClassesProperties.SplitImplode | classes_properties/exercise.php:18 | Words joined by single spaces split back into those words. |
| ClassesProperties.FirstLettersOfWords | classes_properties/exercise.php:19-20 | For non-empty parts the letters are the upper-cased first characters, in order. |
| ClassesProperties.InitialsOfWords | classes_properties/exercise.php:17-21 | For space-separated words the initials are their upper-cased first letters, in order. |
| ClassesProperties.SampleInitials | classes_properties/exercise.php:57 | "Amina Zouhair" gives "AZ". |
| ClassesProperties.FirstLettersOfSplit | classes_properties/exercise.php:18-20 | Splitting on runs of whitespace and taking each piece's upper-cased first letter gives exactly the upper-cased first characters of the whitespace-separated words. |
| ClassesProperties.InitialsSpec | classes_properties/exercise.php:17-21 | For every name, the initials are the upper-cased first characters of the words of the trimmed name, in order. |
| ClassesProperties.WordStartsOfRuns | classes_properties/exercise.php:18 | Words separated by non-empty runs of whitespace, with whitespace before and after, start exactly at the words. |
| ClassesProperties.InitialsOfRuns | classes_properties/exercise.php:17-21 | A name of words separated by any non-empty runs of whitespace (leading \f, tabs, doubled spaces included) has the words' upper-cased first letters as initials. |
| ClassesProperties.SpacedInitials | classes_properties/exercise.php:17-21 | "\fAmina \t Zouhair " gives "AZ". |
| ClassesProperties.BlankNameInitials | classes_properties/exercise.php:17-21 | A name that is blank once trimmed has no initials. |
| ClassesProperties.ToArrayFields | classes_properties/exercise.php:24-33 | toArray holds the constructor fields unchanged (bio null when absent) and the initials of the name. |
| ClassesProperties.FromArrayEmail | classes_properties/exercise.php:42-45 | fromArray fails iff the email is missing, null or blank once trimmed; otherwise the email is the trimmed, non-empty cast. |
| ClassesProperties.FromArrayId | classes_properties/exercise.php:40 | id >= 1: the (int) cast when that is at least 1, and 1 when the id is missing or its cast is below 1. |
| ClassesProperties.FromArrayName | classes_properties/exercise.php:41 | name is 'Inconnu' when missing or null, else the trimmed cast; always trimmed. |
| ClassesProperties.FromArrayBioCount | classes_properties/exercise.php:46-47 | bio is null iff missing or null, else the string cast; articlesCount is the (int) cast of the set value, 0 when missing, not clamped. |

## Left out

- Terminal and CLI plumbing is not modelled: `getopt`, usage text, STDIN/STDOUT/STDERR writes, `echo`/`print_r`, and the mapping of exceptions to exit codes beyond the status each script returns. The demos' printed output is also left out.
- File and JSON I/O is not modelled: `file_get_contents`, `file_put_contents`, `is_file`, `mkdir`, and `json_encode`/`json_decode`. Decoded data is an input, and a write's outcome is a parameter.
- A failing `json_encode` in `save` (c3-php/src/Infrastructure/JsonArticleRepository.php:47) is not modelled. On invalid UTF-8 it returns false; `file_put_contents($path, false)` then truncates the file and returns 0, which is not `=== false`, so `save` reports success and leaves an empty file. Dafny strings cannot hold invalid UTF-8, so the model has no such input. This is an observation about the source that was not executed.
- The temp-then-rename `saveJson` in Files_JSON/script.php is not modelled. It is OS-level I/O, and the validated article list is the script's result.
- JsonRepo.JsonArticleRepository.Save: a failed write may leave any file state. No atomicity is claimed.
- `str_getcsv` quoting and escapes are not modelled: CSV fields are a plain comma split. Lines are split on "\n" first, as in the source, so quoted newlines cannot occur.
- `str_getcsv` line endings are not modelled: PHP drops a trailing "\r" from the last unquoted field (CLI_scripts/bin/seed_generator.php:55, 67), but the model's comma split keeps it. For a CRLF file whose last header is a required one (`...,author\r`), the model reports `MissingHeader` where PHP parses the file.
- Php.StringToInt: leading whitespace, a sign and decimal digits only. Exponent forms, hexadecimal and 64-bit overflow of `(int)` are not modelled. Floats are not modelled anywhere.
- Numeric-string array keys (PHP turns "1" into 1) are not modelled: every field key is a string key.
- Slug.Slugify works on characters with ASCII case mapping, where PHP works on bytes. A non-ASCII character such as "é" stands for its UTF-8 bytes. None of those bytes is in [a-z0-9], and a run of them collapses into one dash, so the slugs agree; the bytes themselves are not represented. The literal slug examples are proved word by word through Slugify2, Slugify3 and Slugify4, because evaluating slugify on a whole literal title is beyond the verifier's resource budget.
- ClassesProperties.InitialsSpec, InitialsOfRuns and InitialsOfWords: the first character stands for `substr($p, 0, 1)`, the first byte. A multibyte first letter is not modelled.
- FilesJson.MergeExtras: the loose `in_array` is modelled as strict equality of values. The numeric-string coincidences of loose comparison are not modelled.
- FilesJson.RunScript: extras are an optional list of arrays. A decoded extras file whose entries are not arrays is not modelled.
- ArrayFunctions.Entry: every sample article has all its fields, so the model gives each entry every field except the optional `published` flag. Missing `views`, `author` or `category` are not modelled.
- ArrayFunctions.SortByViews: PHP's zend_sort is a hybrid algorithm. It is modelled as a stable insertion sort, which gives the same result, because the PHP 8 sort is stable.
- ArticleFactory.Make: `array_rand`, `rand`, `date` and `time` are a function of the row number (`picks`). `Str::slug` and `Str::excerpt` are function parameters (`slugOf`, `excerptOf`). The properties hold for every choice of them.
- Object aliasing is not modelled: repositories store value snapshots of saved articles, so changing an article after `save` cannot affect what was stored.
- The c3-php `App\Domain\Article` class is not part of this model. It is a datatype with id, title, slug and tags.
- The unreachable "No lines in input" branch of seed_generator.php (line 50) is not modelled, because `explode` never returns an empty list.
