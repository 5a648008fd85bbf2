# OSINT article scraper core, modelled in Dafny

This project models the core of an OSINT news scraper in Dafny. The scraper reads
news articles through per-site scraping profiles. The model covers three parts:

- **`OSINTtext.py`** (module `OsintText`) turns an article's clear text into a word list
  (`cleanText`). It then picks tags from that list (`generateTags`): the non-empty words
  that are not common English words once lower-cased, ranked by frequency with
  `Counter.most_common(10)`, keeping only those seen more than twice.
- **`OSINTmisc.py`** (module `OsintMisc`) holds three string helpers:
  - the URL test `checkIfURL`;
  - `catURL`, which joins a relative path onto a site's root URL;
  - `fileSafeString`, which turns any text into a file-name-safe string.
- **`OSINTextract.py`** (module `OsintExtract`) extracts an article from a parsed page
  through a profile:
  - `locateContent` finds a tag, or a list of tags, under an optional container class;
  - `cleanSoup` removes unwanted `tag,class` pairs from the page in place;
  - `extractArticleDetails` collects title, author and the other details;
  - `extractArticleContent` assembles the body as markup or as text, with an optional
    header image in front;
  - `extractAllDetails` runs these in sequence on one page.

Module `Strings` holds the shared helpers:

- Python's whitespace set (`str.isspace`, which is also what `\s` matches);
- ASCII letters and lowering;
- `str.split` with a one-character separator, and `str.join`;
- a character count and the subsequence relation.

The parsed page is a value of type `Node`, one of:

- a string `Text(s)`;
- an element `Element(name, classes, children)`. The document itself is the element
  named `[document]`.

BeautifulSoup's behaviour is modelled over this tree:

- **Search.** `find` and `find_all` visit descendants in document order, or only the
  children when `recursive=False`. Only elements ever match.
- **Class test.** `class_=c` matches when `c` is one of the tag's classes, or equals the
  whole class list joined by spaces.
- **Text and markup.** `get_text` concatenates the strings below a node. `str` renders
  markup, with `&`, `<` and `>` escaped.
- **The placeholder.** The `"Unknown"` placeholder document, which `locateContent`
  builds in its `except` branch, is the node `UnknownDoc`.

The page is held by the class `Soup`. `CleanSoup` and `ExtractArticleContent` update it
in place, so the effect of one pass is visible to the next.

The code behaves as follows in five places where a reader might expect otherwise. The
model follows the code:

- **A detail that is not found is a failure.** The `"Unknown"` values at
  OSINTextract.py:37 and :55 suggest that a missing detail becomes `"Unknown"`. In the
  code, `find` returns `None` inside an existing container, and `None.get_text()`
  raises. `ExtractArticleDetails` therefore returns a `Failure`. `"Unknown"` is produced
  only for an empty descriptor, or when the container itself is missing.
- **An empty body is not an error.** The check at OSINTextract.py:76 looks like a
  failure for an article with no body. It never fires: the test `textList == "Unknown"`
  compares a tag or list with a string and never holds. The model has no failure branch
  there, and an empty match assembles to `""`.
- **An empty tag name finds nothing.** BeautifulSoup compares a tag's name with the
  searched name before it treats an empty filter as "anything". A descriptor with an
  empty element (OSINTextract.py:29), or a removal entry `",ad"` (OSINTextract.py:42),
  therefore matches no tag. `EmptyNameRemovesNothing` shows this.
- **An empty class matches only classless tags.** An empty class in a removal entry
  (`"div,"`) is passed as `class_=""`, which matches only tags without a class. It does
  not mean "any class". `EmptyClassRemovesOnlyClassless` shows this.
- **A found header image can be moved out of the page.** When the text container is
  missing, the header image is inserted into the placeholder document, and that moves it
  out of the page. The second, clear-text pass of `extractAllDetails` then sees
  different elements. `HeaderMovedBetweenPasses` shows this.

## Model

| member | source | states |
|---|---|---|
| OsintText.ReplaceNewlines | OSINTtext.py:16 | every newline becomes a space and every other character stays in place; no newline is left |
| OsintText.StripApostrophes | OSINTtext.py:18 | no apostrophe is left in the result |
| OsintText.StripApostrophesSubseq | OSINTtext.py:18 | removing apostrophe runs only deletes characters; the rest keep their order |
| OsintText.FieldsRejoin | OSINTtext.py:18-20 | the whitespace-separated fields of a text, put back together with the whitespace between them, give the text back |
| OsintText.StripApostrophesFields | OSINTtext.py:18 | exactly the characters from each field's first apostrophe to the field's end are deleted; the whitespace and every field's part before its first apostrophe stay |
| OsintText.StripApostrophesNone | OSINTtext.py:18 | a text without an apostrophe is unchanged |
| OsintText.CollapseLetterless | OSINTtext.py:20 | every character of the result is a space or occurs in the input (where each match becomes exactly one `' '` is stated by `CollapseAtGap`) |
| OsintText.CollapseKeepsLetters | OSINTtext.py:20 | the collapse neither removes nor reorders any ASCII letter |
| OsintText.CollapseGapFree | OSINTtext.py:20 | after the collapse, no two whitespace characters are separated by letterless text only |
| OsintText.GapFreeMeaning | OSINTtext.py:20 | in such text, any two whitespace characters have an ASCII letter between them |
| OsintText.CollapseFixesGapFree | OSINTtext.py:20 | a text with no letterless field between two whitespace characters is unchanged |
| OsintText.CollapseIdempotent | OSINTtext.py:20 | collapsing twice is collapsing once |
| OsintText.CollapseKeepsWords | OSINTtext.py:20 | the result's fields are some of the input's fields, in order: every field holding a letter is kept whole, as a field of its own, and the first and the last fields are kept |
| OsintText.CollapseKeepsLastField | OSINTtext.py:20 | the text after the last whitespace character is the same before and after the collapse, and the collapsed text has whitespace exactly when the input has |
| OsintText.SplitLastField | OSINTtext.py:23 | the last piece of a split at spaces ends with the text after the last whitespace character of the whole text |
| OsintText.FieldsAtSpace | OSINTtext.py:20 | cutting a text at a whitespace character cuts its list of fields there |
| OsintText.CleanTextTokens | OSINTtext.py:12-25 | there is at least one token; no token contains a newline, an apostrophe or a space; every token strictly between the first and the last contains an ASCII letter; the last token ends with the substituted text's last whitespace field, unchanged |
| OsintText.CollapseAppendAtLetter | OSINTtext.py:20 | no match crosses a letter: text ending with a letter collapses on its own, independently of what follows |
| OsintText.CollapseAfterWord | OSINTtext.py:20 | text ending with a word that holds a letter collapses independently of what follows |
| OsintText.CollapseKeepsNoSpace | OSINTtext.py:20 | text without whitespace is left unchanged |
| OsintText.CollapseAtGap | OSINTtext.py:20 | two whitespace characters (any of them, `\r` and `\t` included) with only letterless text between them, together with the letterless text after them up to the last whitespace before the next letter, become one `' '` |
| OsintText.CleanTextSeparates | OSINTtext.py:16-23 | two words holding letters, separated in the substituted text by at least two whitespace characters with only letterless text between them, land in different tokens: the tokens are those of the first part followed by those of the second |
| OsintText.CleanTextCarriageReturn | OSINTtext.py:16-23 | `"a\r\nb"` gives exactly the tokens `a` and `b` |
| OsintText.CleanTextJoin | OSINTtext.py:20-23 | joining the tokens with single spaces gives back the text after the three substitutions |
| Strings.JoinSplit | OSINTtext.py:23 | `split` with a separator, followed by `join` with the same separator, is the identity |
| Strings.SplitCount | OSINTtext.py:23 | the number of pieces is one more than the number of separators |
| Strings.Lower | OSINTtext.py:38 | lowering keeps the length and maps each character through ASCII lowering |
| OsintText.Uncommon | OSINTtext.py:37-39 | every kept word is non-empty and, lower-cased, not in the word list |
| OsintText.UncommonAppend | OSINTtext.py:37-39 | filtering a concatenation is the concatenation of the filtered parts |
| OsintText.RankAllRanked | OSINTtext.py:42 | the counter's ordering puts words by count, high to low, with ties in order of first occurrence |
| OsintText.MostCommon | OSINTtext.py:42 | at most n distinct words of the input, each with its exact count, in rank order; a word left out ranks below all n entries kept |
| OsintText.AboveThreshold | OSINTtext.py:45-48 | never more tags than ranked entries |
| OsintText.AboveThresholdMember | OSINTtext.py:45-48 | a word is a tag exactly when some ranked entry has it with a count above 2 |
| OsintText.TagsAreFrequentUncommonWords | OSINTtext.py:28-50 | at most ten tags; each is non-empty, not a common word once lower-cased, and occurs more than twice |
| OsintText.TagsAreRanked | OSINTtext.py:42-48 | tags come by non-increasing count, with ties in order of first occurrence |
| OsintText.TagsAreComplete | OSINTtext.py:42-48 | an uncommon word seen more than twice is left out only when ten tags already rank above it |
| OsintText.TagsProperties | OSINTtext.py:28-50 | all of the above together, and the tags are distinct |
| OsintText.GenerateTags | OSINTtext.py:28-50 | the two loops compute the specified tag list, which has at most ten entries |
| OsintMisc.CheckIfURLMeaning | OSINTmisc.py:37-41 | a URL is exactly a string starting with `http://` or `https://` that has a dot after that prefix and before any newline |
| OsintMisc.DropLast | OSINTmisc.py:48 | `rootURL[:-1]` drops the last character, and leaves `""` as it is |
| OsintMisc.CatURL | OSINTmisc.py:44-48 | the result ends with the relative path; an absolute URL is returned unchanged; otherwise the root minus its last character is in front |
| OsintMisc.CheckIfURLAppend | OSINTmisc.py:37-41 | appending anything to a URL leaves a URL |
| OsintMisc.CatURLIdempotent | OSINTmisc.py:44-48 | when the root without its last character is a URL, every join is a URL, and joining it again onto the same root changes nothing |
| OsintMisc.TrimStart | OSINTmisc.py:53 | the result is a suffix of the input that does not start with whitespace, and everything dropped is whitespace |
| OsintMisc.TrimEnd | OSINTmisc.py:53 | the result is a prefix of the input that does not end with whitespace, and everything dropped is whitespace |
| OsintMisc.Strip | OSINTmisc.py:53 | the stripped string neither starts nor ends with whitespace |
| OsintMisc.StripMeaning | OSINTmisc.py:53 | the stripped string is a slice of the input, with only whitespace before it and after it |
| OsintMisc.SpacesToDashes | OSINTmisc.py:53 | every space becomes a dash and every other character stays in place |
| OsintMisc.KeepAllowed | OSINTmisc.py:54 | only characters of `[a-zA-Z0-9-_]` are kept |
| OsintMisc.FileSafeString | OSINTmisc.py:51-55 | the result has only allowed characters and is no longer than the input |
| OsintMisc.FileSafeStringKeeps | OSINTmisc.py:51-55 | the result is the stripped, dashed input with exactly the disallowed characters deleted, in order, each allowed character as often as before |
| OsintMisc.FileSafeStringFixes | OSINTmisc.py:51-55 | a string of allowed characters passes through unchanged |
| OsintMisc.FileSafeStringIdempotent | OSINTmisc.py:51-55 | converting twice is converting once |
| OsintExtract.GetTextIsStringsOf | OSINTextract.py:53 | `get_text` is the concatenation of the strings below the node, in document order |
| OsintExtract.Escape | OSINTextract.py:86 | rendered text contains no `<` or `>` |
| OsintExtract.UnescapeEscape | OSINTextract.py:86 | escaping text in markup loses nothing: decoding the entities gives the text back |
| OsintExtract.FilterSpec | OSINTextract.py:27-34 | a search returns the matching candidates, each of them and nothing else, in document order; the first result has no earlier match; a matching node occurs in the result exactly as often as among the candidates, any other node never |
| OsintExtract.LocateContent | OSINTextract.py:11-37 | several tags give a list or the placeholder, one tag gives a tag, `None` or the placeholder; the placeholder comes exactly when a configured container is absent |
| OsintExtract.ContainerMeaning | OSINTextract.py:16-17 | a configured container is a tag with that class, and no earlier tag in the document has it |
| OsintExtract.LocateAllMeaning | OSINTextract.py:26-27 | the list holds, in document order, exactly the container's candidates named by one of the `;`-separated names and carrying the class when one is given, each as often as it occurs among the candidates |
| OsintExtract.LocateOneMeaning | OSINTextract.py:28-34 | `None` exactly when no candidate matches; otherwise the first candidate whose tag name is the searched name, compared as it is, and which carries the class when one is given |
| OsintExtract.FirstPathFinds | OSINTextract.py:29 | the first match of a recursive search has a position in the tree, and the node there is that match |
| OsintExtract.HeaderPathLocates | OSINTextract.py:71 | a header image is found exactly when its position is known, and that position holds the found tag |
| OsintExtract.Detach | OSINTextract.py:73-74 | moving the header out keeps the page's own tag; the page's old document order is its new document order with the header's subtree put back as one block at some position |
| OsintExtract.RemoveAtCut | OSINTextract.py:73-74 | removing the node at a position removes exactly its subtree: the old document order is the new one with that subtree put back as one block at some position |
| OsintExtract.CleanForestKeepsClean | OSINTextract.py:41-43 | removing the matches of one entry cannot bring back matches of another |
| OsintExtract.CleanAllRemovesEvery | OSINTextract.py:40-45 | after cleaning, no entry of the removal list matches anywhere in the page |
| OsintExtract.CleanAllIdentity | OSINTextract.py:40-45 | a page where no entry matches is left unchanged |
| OsintExtract.CleanAllIdempotent | OSINTextract.py:40-45 | cleaning a cleaned page changes nothing |
| OsintExtract.CleanAllKeepsOrder | OSINTextract.py:40-45 | the document node stays, and the surviving tags and strings keep their relative order |
| OsintExtract.CleanForestAppend | OSINTextract.py:42-43 | one removal step on two forests side by side cleans each of them on its own |
| OsintExtract.CleanForestKeepsUnmatched | OSINTextract.py:42-43 | a node that neither matches the search nor lies below a match survives one removal step, under ancestors with the same tags and classes |
| OsintExtract.CleanAllKeepsUnmatched | OSINTextract.py:40-45 | a node that no entry's search matches, on itself or on an ancestor, survives the whole removal list, under ancestors with the same tags and classes |
| OsintExtract.CleanAllKeepsEveryUnmatched | OSINTextract.py:40-45 | the same for every position of the page at once; the surviving nodes are exactly the unmatched ones, each once, in document order |
| OsintExtract.MatchesAnyQueries | OSINTextract.py:41-42 | a node matches one of the list's searches exactly when it matches the search of some entry |
| OsintExtract.CleanForestByStep | OSINTextract.py:41-43 | removing the matches of one more search after the matches of several is removing the matches of all of them at once |
| OsintExtract.CleanAllAtOnce | OSINTextract.py:40-45 | the entries one after another remove what one pass removing every match of any entry removes |
| OsintExtract.FlagsAt | OSINTextract.py:40-45 | the node at a position of the page sits at its index in document order, and it is marked to survive exactly when no search matches it or an ancestor |
| OsintExtract.CleanForestBySelects | OSINTextract.py:40-45 | the document order after removal is the old document order with exactly the marked nodes kept |
| OsintExtract.CleanAllSelects | OSINTextract.py:40-45 | the same for the whole removal list |
| OsintExtract.EmptyNameRemovesNothing | OSINTextract.py:42 | the entry `,ad` removes nothing, not even a `div` with class `ad` |
| OsintExtract.EmptyClassRemovesOnlyClassless | OSINTextract.py:42 | the entry `div,` removes a classless `div` and keeps a `div` that has a class |
| OsintExtract.Soup.constructor | OSINTextract.py:94 | the soup holds the parsed page |
| OsintExtract.CleanSoup | OSINTextract.py:40-45 | the soup's page becomes the page cleaned by every entry of the list, in order |
| OsintExtract.UnknownDocRenders | OSINTextract.py:37 | the placeholder's text and markup are both `Unknown` |
| OsintExtract.DetailTextMeaning | OSINTextract.py:52-55 | an empty descriptor or an absent container gives `Unknown`; a present container without the tag gives no text; otherwise the text of the tag found |
| OsintExtract.DetailsMeaning | OSINTextract.py:49-57 | the details succeed exactly when every detail has a text, and then they are those texts, one per key, in key order |
| OsintExtract.DetailsFailureStays | OSINTextract.py:51-53 | once a detail fails, later details do not change the outcome |
| OsintExtract.ExtractArticleDetails | OSINTextract.py:49-57 | the loop computes the specified details, or the failure for the first detail without a text |
| OsintExtract.Cleaned | OSINTextract.py:62-66 | with no removal list the page is untouched; otherwise the document node stays, no entry matches, every node that no entry matches, on itself or on an ancestor, survives, and the survivors are exactly those nodes, each once, in document order |
| OsintExtract.HeaderComesFirst | OSINTextract.py:69-74 | a found header image is the first element, and the text elements follow in their order |
| OsintExtract.AssembleEnds | OSINTextract.py:79-88 | no element gives `""`; otherwise the text ends with the delimiter |
| OsintExtract.AssembleSnoc | OSINTextract.py:82-86 | one more element appends its rendering and the delimiter |
| OsintExtract.AssembleSplit | OSINTextract.py:79-88 | splitting the text at a one-character delimiter that no rendering contains gives back the renderings in order, then `""` |
| OsintExtract.AssembleText | OSINTextract.py:79-88 | the loop computes the specified assembly |
| OsintExtract.CollectContentElements | OSINTextract.py:61-74 | the page is cleaned, with the header moved out when it went into the placeholder; the elements are the located list with the header in front |
| OsintExtract.ExtractArticleContent | OSINTextract.py:59-88 | the new page and the assembled text are those the specification functions give for the old page |
| OsintExtract.ExtractAllDetails | OSINTextract.py:91-100 | success exactly when the details succeed; the content is the markup of the first pass; the clear text comes from the page that the first pass left |
| OsintExtract.SecondPassSeesSameElements | OSINTextract.py:96-98 | unless a header went into the placeholder, the second pass sees the same page and the same elements as the first |
| OsintExtract.HeaderMovedBetweenPasses | OSINTextract.py:69-74 | with no text container and a header image on the page, the first pass moves the image out, so the second pass does not see it |

## Left out

- `cleanText` normalises its input to Unicode NFKD (OSINTtext.py:14). The model has no
  Unicode database, so the text is taken as already normalised.
- `str.lower()` lowers only ASCII letters here. Non-ASCII case mapping needs Unicode data.
- `generateTags` reads its word list from `./tools/wordlist.txt`. The model takes the
  list as a parameter, a set of lines that are already stripped.
- The HTML parser (`BeautifulSoup(articleSource, 'html.parser')`) is not part of this
  model. `ExtractAllDetails` takes the parsed tree.
- Attributes other than `class` are not modelled. This also leaves out the quoting
  choices of the output formatter, and the difference between a tag without a class
  attribute and one with `class=""` (both are an empty class list here).
- Comments, CDATA and other special string types are not modelled: every string is a
  text node and counts in `get_text`.
- CleanSoup: `decompose()` is applied tag by tag in the source. Here one removal step
  takes out every match with its subtree at once. The result is the same tree, but the
  order in which tags are destroyed is not modelled, nor the destroyed tags' own state.
- CollectContentElements: the inserted header is modelled by its value in the element
  list. Object identity and aliasing between the list and the page are not modelled.
- ExtractArticleDetails: the failure carries a message of the model's own. The
  `AttributeError` text of the source is not reproduced.
- RemoveListWellFormed (required by CleanSoup, and by Cleaned through the content
  profile): every `;`-separated entry of a removal list must contain a comma. On an
  entry without one, such as the empty entry after a trailing `;` in `"div,ad;"`,
  `TagAndClass.split(",")[1]` at OSINTextract.py:42 raises `IndexError`. That error
  path is not modelled.
- `GetText` is defined on string nodes too. This follows BeautifulSoup 4.10 and later,
  where `NavigableString` has `get_text`. In the 4.9.x releases only `Tag` has it, and
  calling it on a string raises `AttributeError`. That failure is not modelled. The
  scraper reaches a string node in one place: when the text container is missing, the
  clear-text loop (OSINTextract.py:82-84) walks the children of the placeholder, and its
  only child is the string `Unknown`.
- The `raise Exception(...)` at OSINTextract.py:76-77 cannot be reached, so it is not
  modelled.
- The following are outside the core and not part of this model:
  - `extractMetaInformation` (OSINTextract.py:103-131) and its JSON-LD and date parsing;
  - the database and user modules;
  - the rest of `OSINTmisc.py`: folder creation and debug printing.
