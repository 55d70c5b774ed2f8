# Gopherus, modelled and proved in Dafny

Gopherus is a console gopher client written in C. Underneath its sockets and its screen code there
is a set of small stateful algorithms, and this project models those and proves what each is for:

- **IdocCodec, GramDict** - the codec of the embedded documents. The packer is greedy, and no
  other code sequence for the same text is shorter; unpacking gives the text back, and a short
  buffer cuts it off at an exactly known place. The dictionary builder takes the most frequent gram
  of what is left in every round, and on 7-bit input never the same one twice.
- **WordWrap, TextView** - the line breaker and the text viewer's loops around it. Nothing visible
  is lost, no line is wider than asked, words stay whole, and no other breaking has fewer lines.
- **GopherUrl, UrlMachine** - the URL parser and printer: which locations survive printing and
  parsing, the canonical form, and the refinement of the character-by-character state machine.
- **History, Browser** - the linked history with its page caches, and the main loop as steps over
  an abstract loader: what each order does to the pages, the cache budget, no query re-issued by going
  back or fetched unasked, no A-B-A pattern, in every run.
- **DnsCache** - the 16-slot table, against a log of the additions.
- **TextFile, Bookmarks** - the line reader and the bookmark file: deletion by overlapping copies in
  one file, add and delete as inverses, uniqueness over every run.
- **LineEditor, Utf8Screen, HttpHeaders, MenuCursor** - the string editor, the incremental UTF-8
  decoder and the painting function, the header skipper, and the menu's selection machine.

`CStrings` holds what the modules share: bytes, C strings (`Content` is the string in a piece of
memory), `strcasecmp`, `atoi` and `%u`. Code that works in place is a method over an array or a
class whose `ensures` equates the new state with a function of the old one; what the program
promises is then proved about that function, and what it computes is also stated outright, on the
bytes and positions a caller sees (`WrapEnds`, `RestParts`, `ExpectedIs`, `TextKeys`, `DownMoves` and
their like). Clock, loader, network and keyboard are inputs.

Where the code and its comments or documentation disagree, or the code does less than one would
expect, the model follows the code:

- `parseurl.c` refers to RFC 1738 (its section 2.2) for the escapes, but writes `'0'` plus each half
  of the signed byte value: of the bytes that have to be encoded, exactly those below 0x20 whose low
  half is at most 9 get their hexadecimal escape (`EscapeIsHex`; a line feed becomes `%0:`, and 0x7F
  stays as it is). `GopherRoundTrip` gives the exact condition under which a location comes back.
- The cleaner runs before the new page is stored, so that the cached bytes exceed its limit exactly
  when the new page does not fit beside what was kept (`LoadWithinLimit`). The bound of every run is
  the limit plus one page (`CacheBudget`), and three full pages reach it (`BudgetIsTight`).
- `gopherus.c` says that `editstring` returns 0 for an unmodified string and non-zero otherwise. The
  result is non-zero exactly when ENTER ends the editing, so that it tells a change exactly when those
  two agree (`EditString`). ENTER alone changes nothing, and backspace followed by ESC changes the
  string with a result of 0 (`ResultIsNotChange`).
- `addbookmarkifnotexist` is meant to add a location once. For every file, adding it twice is adding
  it once exactly when the first search finds it, or when the line that was written is read back as
  this location, with no line of 656 characters or more in the file (`AddTwice`). When the file ends
  in a line feed that means: no TAB in host or selector, and an entry of at most 655 characters
  (`AddTwiceToLines`), which every location parsed from a URL without TABs and line feeds
  meets (`ParsedIsPlain`).
  The results of queries hold a TAB (`TabBookmarkedTwice`); a long one makes a line that hides all
  later bookmarks from both operations (`LongQueryHidesTheRest`). When the last line has no line feed,
  the new entry is glued to it, and is added again if that line is an entry for another host
  (`LastLineIsGlued`, `MenusGlued`). `AddThenDelete` has the condition for deletion, for every file,
  and `AddedTwiceFromEmpty` shows that `RunKeepsUnique` asks no more of the locations than it must.
- `bestgram` and `removegram` scan all windows but the last, so that a gram can occur once more than it
  is counted, and once after it has been erased (`OccurrencesCounted`, `LastWindowMissed`,
  `RemovalErasesGram`). `removegram` compares an unsigned with a signed character, so that it erases a
  gram exactly when all bytes of it are below 128. A gram that is not is chosen again in every later
  round (`HighGramRepeats`); four bytes of 0xE9 fill a dictionary (`HighByteFills`). The entries are
  distinct exactly when all but the last are 7-bit (`DistinctIffAscii`), a condition on the entries
  themselves; the one shown for the input, that it is 7-bit, goes one way (`RoundsErase`).
- The DNS cache keeps the 16 most recent hosts as long as equal times do not decide which one is
  replaced; a new host in a full table replaces the right one exactly when the slot chosen is that of
  the least recent (`SlotDecides`), and additions within one second can choose another
  (`TieLosesNewest`).
- A paragraph whose last line is full takes one line more when another one follows (`ParagraphLines`).
- The cursor of the line editor leaves its field exactly when the field is narrower than nine
  columns (`ColumnInField`).

Plain `char` is taken as signed, as on the program's targets, and `long` and `int` are unbounded
unless the code narrows them: ports are reduced modulo 65536 where they are stored in 16 bits.

## Model

| member | source | states |
|---|---|---|
| `IdocCodec.GramLookup` | idoc/idocgen.c:19-29 | finds the lowest-numbered entry equal to the next four bytes, read as signed characters, or says that no entry is |
| `IdocCodec.MatchIsSigned` | idoc/idocgen.c:22-25 | the four signed comparisons hold exactly for a matching entry under 7-bit text |
| `IdocCodec.Pack` | idoc/idocgen.c:32-55 | the codes printed for a 7-bit text are its greedy parse, expand to the text, and no other decodable sequence with that expansion is shorter |
| `IdocCodec.GreedyExpands` | idoc/idocgen.c:37-53 | packing loses nothing |
| `IdocCodec.GreedyStaysAhead` | idoc/idocgen.c:37-53 | started no later in the text than any other parse, the greedy one uses at least as many grams |
| `IdocCodec.GreedyIsOptimal` | idoc/idocgen.c:37-53 | for every text and table the greedy parse is a shortest one |
| `IdocCodec.Unpack` | startpg.c:17-33 | writes the expansion of the longest run of codes there is room for, then NUL inside the buffer, and nothing behind it |
| `IdocCodec.CopyGram` | startpg.c:25-28 | appends the four bytes of the dictionary entry |
| `IdocCodec.RoomIsMonotone` | startpg.c:22-24 | once a code does not fit, no longer run fits |
| `IdocCodec.CutIsExact` | startpg.c:17-33 | the output is a prefix of the full expansion; nothing is cut iff two cells are spare (one behind a literal); a cut output reaches the last five cells; the cut is unique |
| `IdocCodec.RoundTrip` | startpg.c:17-33 | unpacking what was packed gives the text whenever two cells are spare, and with one spare cell iff the packed text ends in a literal |
| `IdocCodec.ExpandConcat` | startpg.c:19-30 | codes expand independently of what surrounds them |
| `IdocCodec.GreedyCodeIs` | idoc/idocgen.c:19-53 | byte by byte: the first code is the next byte iff fewer than four are left or no entry equals the next four, and else 128 plus the number of the first entry that does |
| `GramDict.PackIsInjective` | idoc/grams.c:27-36 | different grams of one length have different integers |
| `GramDict.PackFits` | idoc/grams.c:27-31 | the integer of a gram of at most four bytes fits 32 bits |
| `GramDict.Sgram` | idoc/grams.c:88-96 | writes back the bytes of a packed gram, terminated |
| `GramDict.WindowGram` | idoc/grams.c:27-37 | the integer of a window, and 0xff exactly for windows that hold a blanked byte |
| `GramDict.CountOne` | idoc/grams.c:38-52 | one more window is counted in its node, or in a new one at the front |
| `GramDict.FindNode` | idoc/grams.c:39-41 | the first node that holds the gram's integer |
| `GramDict.CountGrams` | idoc/grams.c:25-53 | the list holds every clean gram of the scanned windows once, with its exact count, latest newcomer first |
| `GramDict.Greatest` | idoc/grams.c:58-62 | picks the first of the largest counts |
| `GramDict.OccurrencesCounted` | idoc/grams.c:26 | a gram occurs as often as it is counted, or once more, in the last window |
| `GramDict.BestGram` | idoc/grams.c:13-73 | returns a gram of maximal count over the scanned clean windows, of several the one that turned up last; 0 iff no window is clean |
| `GramDict.BestIsUnique` | idoc/grams.c:58-62 | count and tie-break leave only one gram to choose |
| `GramDict.RemoveGram` | idoc/grams.c:76-85 | blanks exactly the leftmost disjoint occurrences |
| `GramDict.BlanksShrinkCounts` | idoc/grams.c:83 | blanking makes no gram more frequent |
| `GramDict.RemovalErasesGram` | idoc/grams.c:76-85 | afterwards no scanned window equals a 7-bit gram, which occurs at most once in all; a gram with a byte from 128 on leaves the buffer as it was |
| `GramDict.RoundsAreRanked` | idoc/grams.c:137-146 | in any series of rounds the counts never increase, and are at most the original totals |
| `GramDict.RoundsErase` | idoc/grams.c:137-146 | on 7-bit input all chosen grams are distinct and gone at the end |
| `GramDict.HighGramRepeats` | idoc/grams.c:80 | once a chosen gram holds a byte from 128 on, the buffer stays as it is and every later round chooses that gram |
| `GramDict.DistinctIffAscii` | idoc/grams.c:136-147 | the entries are pairwise distinct iff all but the last are 7-bit |
| `GramDict.HighByteFills` | idoc/grams.c:136-147 | four bytes of 0xE9 give a dictionary of 128 equal entries |
| `GramDict.LastWindowMissed` | idoc/grams.c:26-53 | "abab" gives an empty dictionary of two-byte grams |
| `GramDict.BuildDict` | idoc/grams.c:135-147 | round by round, the gram chosen is the most frequent in the scanned windows of what the rounds before left, counted there, with bestgram's tie-break, and is then removed; at most 128 rounds, fewer only when no gram is counted twice; counts never increase; on 7-bit input the entries are distinct and erased, and a gram that is not 7-bit fills the rest of 128 entries |
| `GramDict.PackPolynomial` | idoc/grams.c:27-31 | the integer of a gram is its bytes in base 256, the first the most significant |
| `GramDict.CountIsNumber` | idoc/grams.c:25-53 | a count is the number of places where the gram stands |
| `GramDict.RemovedIsDisjoint` | idoc/grams.c:76-85 | only occurrences of the gram are blanked, no two of them overlap, and every scanned occurrence is blanked or overlaps a blanked one in front of it |
| `WordWrap.Wordwrap` | wordwrap.c:10-36 | the line buffer and the resume pointer are those of the specification `Wrap`, for every text, start and width |
| `WordWrap.CutAtLineFeed` | wordwrap.c:18-24 | a line feed ends the line, and a CR in front of it goes with it |
| `WordWrap.CutLine` | wordwrap.c:26-35 | the cut at the last blank within reach, or after width characters when there is none |
| `WordWrap.SkipFrom` | wordwrap.c:32 | steps over the spaces at a cut, and over no other character |
| `WordWrap.WrapAdvances` | wordwrap.c:23-34 | the resume pointer is a proper suffix of the text: the caller's loop ends |
| `WordWrap.WrapAllKeepsInk` | gopherus.c:1610-1617 | every line has at most width bytes, and the lines together hold the text's non-blank characters in order, for every text |
| `WordWrap.CutsAtBlanks` | wordwrap.c:18-35 | a line ends at a line feed, in front of a blank, or is full with no blank to cut at |
| `WordWrap.WrapLine` | wordwrap.c:12-16 | a line is the beginning of the text, character by character, a TAB as a space, with no line feed |
| `WordWrap.WrapEnds` | wordwrap.c:12-35 | where each line ends and where the text goes on: line feed and CR, end of the text, last blank in reach and the spaces there, or the width |
| `WordWrap.LinesJoinToText` | wordwrap.c:26-35 | on single-spaced text of words that fit, the lines joined by spaces are the text: no word is split |
| `WordWrap.GreedyStaysAhead` | wordwrap.c:12-35 | started no earlier than another breaking, the calls make no more lines |
| `WordWrap.FewestLines` | wordwrap.c:12-35 | no breaking at spaces into lines of at most width has fewer lines |
| `WordWrap.ParagraphLines` | gopherus.c:1610-1617 | a paragraph in front of a line feed takes its own lines, and one more iff the last of them is full |
| `WordWrap.TextLines` | gopherus.c:1610-1617 | the number of lines of a text, paragraph by paragraph |
| `WordWrap.FullWordTakesTwoLines` | wordwrap.c:17-28 | "abcd" and "ef" on lines of their own take three lines of width 4 |
| `TextView.PaintLines` | gopherus.c:1609-1617 | the screen rows get the wrapped lines from firstline on, and y counts the lines up to one past the window |
| `TextView.PaintLine` | gopherus.c:1612-1614 | one more row shows its line |
| `TextView.PaintWindow` | gopherus.c:1608-1625 | rows past the end of the text are blank, and the end flag is set iff the text ends inside the window |
| `TextView.Viewer.Paint` | gopherus.c:1608-1625 | one pass shows in row r line firstline + r - 1, and touches no other row |
| `TextView.Viewer.Scroll` | gopherus.c:1664-1702 | the scrolling keys keep the window's height and always leave a line of the text on screen |
| `TextView.Viewer.constructor` | gopherus.c:1605-1607 | the first window starts at line 0 |
| `GopherUrl.GopherRoundTrip` | parseurl.c:125-166 | parsing a printed gopher location returns all its fields iff the host holds no delimiter, the selector only bytes 0x20-0x7F, and an empty host comes with the defaults |
| `GopherUrl.HttpRoundTrip` | parseurl.c:119-124 | host, port and selector of an HTTP location come back, with item type 'h', iff the host holds no delimiter |
| `GopherUrl.TelnetRoundTrip` | parseurl.c:138-142 | host and port of a telnet link come back, and its selector is lost, iff the host holds no delimiter |
| `GopherUrl.CanonicalForm` | parseurl.c:143-166 | an accepted gopher URL whose fields survive a round trip and the text rebuilt from it parse to the same fields, and rebuilding again changes nothing |
| `GopherUrl.SchemeIsOptional` | parseurl.c:22-52 | leaving gopher:// away changes nothing unless the first delimiter begins "://"; then it does, for buffers longer than the URL |
| `GopherUrl.EscapeSafe` | parseurl.c:153-163 | escaping is the identity iff every byte is in 0x20-0x7F |
| `GopherUrl.EscapeIsHex` | parseurl.c:155-159 | of the bytes to be encoded (below 0x20, from 0x7F on), the printer gives '%' and the two hexadecimal digits iff the byte is below 0x20 and its low half at most 9 |
| `GopherUrl.FitLaws` | parseurl.c:153-163 | what fits of a selector is a prefix of its escaped text: all of it iff there is room, and else so much that no escape could follow |
| `GopherUrl.ParsedFields` | parseurl.c:55-111 | a parsed host holds no delimiter, the fields fit their buffers and hold characters of the URL only, and the port fits 16 bits |
| `GopherUrl.EscapeIsReversible` | parseurl.c:155-159 | the two characters behind '%' determine the byte; bytes 0x20 to 0x7F stand for themselves |
| `GopherUrl.EscapeConcat` | parseurl.c:153-163 | a selector is escaped byte by byte |
| `GopherUrl.FitIsMaximal` | parseurl.c:153-163 | what fits is the escaped text of a prefix of the selector, and the next byte's escape does not fit |
| `GopherUrl.HurlIsItsText` | parseurl.c:130-137 | an item of type 'h' whose selector is URL: or /URL: and a text is printed as that text |
| `GopherUrl.HurlLeadsToWeb` | parseurl.c:35-136 | the text of a web link, read as a URL, is the HTTP location it names |
| `GopherUrl.BuildFails` | parseurl.c:119-129 | nothing is printed iff the protocol is not HTTP and the port 0 or the item type no printable character |
| `GopherUrl.PrintedGopher` | parseurl.c:143-163 | a printed gopher URL, case by case: port 70 and the main menu are left out |
| `GopherUrl.PrintedOthers` | parseurl.c:119-146 | a printed HTTP or telnet URL, and gopher:// alone for an empty host |
| `GopherUrl.SchemeInAnyCase` | parseurl.c:33-45 | gopher, http and telnet are recognised in any case, with their protocol, port and type, and no other name is |
| `GopherUrl.NamesScheme` | parseurl.c:22-52 | a text names a scheme iff its first delimiter begins "://"; otherwise all of it is a gopher location |
| `GopherUrl.RestParts` | parseurl.c:55-111 | host, port and path of a URL become host, port, item type and selector, or an error iff host or selector do not fit |
| `GopherUrl.EveryRest` | parseurl.c:55-111 | every text behind a scheme has such a host, port and path |
| `UrlMachine.ReadScheme` | parseurl.c:22-52 | the first loop finds the scheme and cuts the string off at its colon, and otherwise changes nothing |
| `UrlMachine.SchemeEnd` | parseurl.c:22-51 | the loop stops at the first ':' or '/', or at the end |
| `UrlMachine.CutScheme` | parseurl.c:30-45 | the name in front of the colon, terminated in place, decides protocol and defaults |
| `UrlMachine.HostChar` | parseurl.c:57-74 | state 0 reads one character of the host, or fails when the buffer is full |
| `UrlMachine.ReadPort` | parseurl.c:75-85 | the port is what atoi makes of its digits, in 16 bits, and the text is as before |
| `UrlMachine.PortChar` | parseurl.c:75-85 | state 1 leaves at '/' or at the end with the port read |
| `UrlMachine.PathChar` | parseurl.c:86-108 | states 2 and 3: the item type, and then one character of the selector |
| `UrlMachine.TypeChar` | parseurl.c:86-97 | state 2 reads the item type for gopher only, if the text goes on |
| `UrlMachine.SelectorChar` | parseurl.c:98-108 | state 3 stores one character, or fails when the buffer is full |
| `UrlMachine.ReadFields` | parseurl.c:55-111 | the state machine computes the fields of `ParseRest` and leaves the text as it was |
| `UrlMachine.ParseGopherUrl` | parseurl.c:12-112 | for every string and buffer sizes the results are those of `ParseUrl`, and the string is only cut at its scheme's colon |
| `UrlMachine.Snprintf` | parseurl.c:134-151 | as much of a text as fits in front of a terminator; the result is the length of all of it |
| `UrlMachine.AppendEscaped` | parseurl.c:153-166 | the selector loop appends as much of the escaped selector as the buffer holds, and a terminator |
| `UrlMachine.AppendEscapedChar` | parseurl.c:154-162 | one character as it is, or as '%' and two characters, if there is room for it |
| `UrlMachine.BuildHttpText` | parseurl.c:119-124 | an HTTP URL for a buffer of any size: port 80 left out, the text cut by snprintf, its whole length returned |
| `UrlMachine.BuildHead` | parseurl.c:143-152 | host, port and type: default port left out, cut by snprintf when it fills the buffer |
| `UrlMachine.BuildPort` | parseurl.c:143-150 | a gopher URL that ends in its port, for every buffer the host fits |
| `UrlMachine.BuildTail` | parseurl.c:143-166 | a classic gopher URL with a type or a selector: as much of the selector as fits |
| `UrlMachine.FittedIsPrefix` | parseurl.c:152-166 | that text is a prefix of the whole URL, and the whole iff it fits |
| `UrlMachine.BuildGopherUrl` | parseurl.c:116-167 | for every buffer that no length reached by x passes: the terminated text of `BuildUrl`, cut by snprintf with the whole length as the result, or cut in front of the first selector character that does not fit; -1 and an untouched buffer on an error |
| `History.Stack.Pop` | history.c:22-42 | drops the top node; a query page that comes up without a cache gets the message instead |
| `History.Stack.RestoreQuery` | history.c:31-41 | a query that is on top without a cache gets the message; nothing else changes |
| `History.Stack.IsPrevious` | history.c:50-56 | the shortcut is taken iff the location is that of the page below the top |
| `History.Stack.Push` | history.c:46-85 | pushing the previous location returns to that very node; otherwise a fresh node is put on the unchanged list |
| `History.Stack.CleanupCache` | history.c:90-102 | page i keeps its cache iff its host does not start with '#' and the original sizes through i are within the limit |
| `History.Stack.Evict` | history.c:95-99 | one node loses its cache, and no other changes |
| `History.Stack.Clear` | history.c:106-113 | empties the list |
| `History.Stack.Store` | gopherus.c:1900-1911 | a loaded page is cached in the top node, and no other changes |
| `History.Stack.Refresh` | gopherus.c:1934-1939 | the top node loses its cache and scroll memory, and no other changes |
| `History.Stack.Remember` | gopherus.c:1187-1188 | the display code changes only the scroll memory of the top node |
| `History.Stack.Top` | gopherus.c:1890-1892 | what the loop looks at in the top node |
| `History.CleanNext` | history.c:92-101 | one more node has been cleaned |
| `History.NeverAba` | history.c:22-85 | in every sequence of pushes, pops, clean-ups and changes of the top page, no page has the location of the page two below it |
| `History.SameLocationIs` | history.c:52-56 | protocol, port, type and selector are equal and the hosts are in any case |
| `History.PopLaws` | history.c:22-42 | going back drops the top page and leaves the others, but for a query without a cache that comes up |
| `History.PushLaws` | history.c:66-84 | a new location is a page without cache on top of the unchanged others |
| `History.CleanedIs` | history.c:90-102 | a page keeps its cache iff its host does not begin with '#' and the sizes through it are within two megabytes; nothing else changes |
| `Browser.CleanedTotal` | history.c:90-102 | what the cleaner keeps is within the limit and never more than there was |
| `Browser.PopKeeps` | history.c:22-42 | going back keeps budget, sizes, query rule and no A-B-A |
| `Browser.PushKeeps` | history.c:46-85 | pushing from a displayed page keeps them |
| `Browser.LoadKeeps` | gopherus.c:1892-1913 | loading, or failing to load, keeps them |
| `Browser.StoreKeeps` | gopherus.c:1899-1911 | after clean-up and storing, the pages below the top are within the limit |
| `Browser.ScreenKeeps` | gopherus.c:1915-1942 | every order of the display code keeps them |
| `Browser.StepKeeps` | gopherus.c:1879-1957 | every step of the main loop keeps them |
| `Browser.RunKeeps` | gopherus.c:1879-1957 | every run keeps them, from an empty history or a location on the command line |
| `Browser.CacheBudget` | gopherus.c:1890-1942 | in every reachable state the cached bytes are at most MAXALLOWEDCACHE + PAGEBUFSZ |
| `Browser.QueriesNeverReissued` | history.c:31-41 | in every run a type-'7' page is fetched only right after it was pushed as a new node or refreshed |
| `Browser.QueriesOnDemand` | gopherus.c:1892-1942 | in a run in which the user goes to no query and orders no refresh, none is fetched, however often the user goes back |
| `Browser.NoRefreshNoReload` | gopherus.c:1934-1939 | in a run without ordered refreshes no page is reloaded |
| `Browser.StepLogs` | gopherus.c:1879-1957 | a step logs a refresh only for an ordered one of the page on screen, and a new node only for a location the user goes to, or the welcome page |
| `Browser.TopOfLoop` | gopherus.c:1883-1915 | the welcome page on an empty history; items that cannot be displayed are left; cached pages are shown as they are |
| `Browser.LoadStep` | gopherus.c:1892-1912 | a page not in the cache is fetched; the bytes that arrive are the cache of the top page, the other pages are as cleaned; a failure goes back |
| `Browser.BackStep` | gopherus.c:1932-1933 | back leaves one page less, each with the location of the one below, all from the second on unchanged |
| `Browser.RefreshStep` | gopherus.c:1934-1939 | a refresh forgets cache and scroll memory of the top page, and nothing else |
| `Browser.VisitStep` | gopherus.c:1338-1340 | going to the location of the page below is going back to it; any other gets a new page on top |
| `Browser.QuitStep` | gopherus.c:1940-1942 | quitting stops the loop for good |
| `Browser.IterationIsSteps` | gopherus.c:1879-1957 | one time round the loop is one to three steps, and no page is left on screen |
| `Browser.HistoryHasNoAba` | history.c:49-65 | so in every run of the main loop, whatever is loaded |
| `Browser.BackFindsPage` | history.c:31-65 | pushing the previous location brings its page back unchanged, cache and scroll memory included, iff it is no query or still cached; otherwise it holds the message |
| `Browser.LoadWithinLimit` | gopherus.c:1899-1911 | a load leaves the cached bytes within the cleaner's limit iff the page fits beside what the cleaner kept |
| `Browser.BudgetIsTight` | gopherus.c:1890-1942 | a run of three full pages reaches MAXALLOWEDCACHE + PAGEBUFSZ |
| `Browser.IterationKeeps` | gopherus.c:1879-1957 | one time round the loop keeps the invariant |
| `Browser.Session.Iterate` | gopherus.c:1879-1957 | the loop body on the linked history, with its own log of pushes, pops, loads and refreshes, does what the steps say; that log never shows a query fetched without its push or refresh |
| `Browser.Session.Load` | gopherus.c:1890-1913 | the upper half is one step: load what is not cached, or offer a download and leave |
| `Browser.Session.Fetched` | gopherus.c:1893-1912 | the load is logged; failed, it goes back; else the page is stored after the clean-up |
| `Browser.Session.StorePage` | gopherus.c:1899-1911 | clean-up and storing on the linked history |
| `Browser.Session.Display` | gopherus.c:1915-1942 | the lower half is one step |
| `Browser.Session.Obey` | gopherus.c:1932-1942 | push, back, refresh and quit on the linked history |
| `Browser.Session.PushLocation` | gopherus.c:1884 | a push on the linked history and in the log is the abstract one |
| `Browser.Session.PopLocation` | gopherus.c:1896 | so is a pop |
| `Browser.Session.RefreshPage` | gopherus.c:1934-1939 | so is a refresh |
| `Browser.Session.constructor` | gopherus.c:1832-1835 | the session starts empty or with the location given |
| `DnsCache.Cache.Ask` | dnscache.c:24-35 | with increasing add times, or whenever equal times have not decided a replacement, and a clock above 120 the answer is exactly that of the log: the host is among the 16 latest distinct ones and at most 120 s old; with non-decreasing times every hit is the latest addition, at most 120 s old |
| `DnsCache.Cache.Add` | dnscache.c:39-56 | replaces the host's slot or the oldest one, logs the addition, and ignores names above 31 bytes |
| `DnsCache.Cache.FindSlot` | dnscache.c:40-51 | the slot of the host if it is in the table, else the first of the oldest |
| `DnsCache.AddKeepsSafe` | dnscache.c:39-56 | every used slot stays the latest addition of its host, no host in two slots |
| `DnsCache.AddKeepsTop` | dnscache.c:39-56 | the table goes on holding the 16 most recent distinct hosts of the log, unless equal times decide the replacement |
| `DnsCache.SlotDecides` | dnscache.c:43-53 | a new host in a full table leaves the 16 most recent hosts iff the slot chosen is that of the least recent |
| `DnsCache.IncreasingIsApart` | dnscache.c:44 | increasing times never decide wrongly |
| `DnsCache.TieLosesNewest` | dnscache.c:44 | with all slots filled within one second, two more hosts in that second both go to slot 0, and the first of them is lost while it is still wanted |
| `DnsCache.RecentRank` | dnscache.c:39-56 | a host's place by recency is the number of hosts added since |
| `DnsCache.LatestIsListed` | dnscache.c:39-56 | the list by recency holds the latest addition of every host |
| `DnsCache.TopIsFewNewer` | dnscache.c:39-56 | a host is among the 16 most recent iff fewer than 16 others were added since |
| `DnsCache.HitIsLatest` | dnscache.c:27-33 | a hit is the latest addition of the host |
| `DnsCache.MissIsExpected` | dnscache.c:27-34 | when no slot matches, the log has no live entry either |
| `DnsCache.ExpectedIs` | dnscache.c:24-56 | what is expected, on the log of additions: the latest address of the host in any case, unless older than 120 seconds or followed by 16 other hosts |
| `DnsCache.NeverAdded` | dnscache.c:27-34 | a host never added, in whatever case, is not found |
| `DnsCache.FoundInAnyCase` | dnscache.c:27-33 | a host just added is found in any case for 120 seconds |
| `DnsCache.CaseDoesNotMatter` | dnscache.c:29 | names that differ in case only get the same answer |
| `TextFile.ReadLine` | readflin.c:14-35 | reads one line without its terminator, 0 at the end of the file and for a line too long, and leaves the position behind what was read |
| `TextFile.Terminate` | readflin.c:29-34 | drops one CR and terminates the line |
| `TextFile.ChopIs` | readflin.c:29-30 | exactly one CR at the end is dropped |
| `Bookmarks.MenulineExplode` | gopherus.c:382-416 | for every text the in-place splitter leaves in the buffer exactly the fields behind the first three TABs of its first line, and returns the length of that line |
| `Bookmarks.ExplodedPointers` | gopherus.c:382-416 | the positions it returns point to those fields |
| `Bookmarks.ReadFields` | gopherus.c:498-502 | one line read and split |
| `Bookmarks.FindInFile` | gopherus.c:552-577 | the reading loop finds the first line whose fields satisfy the test, and its extent |
| `Bookmarks.AddBookmark` | gopherus.c:488-541 | appends the entry unless a line has the location already; a file that cannot be read has no bookmarks, one that cannot be written stays as it is and an error is reported |
| `Bookmarks.DeleteBookmark` | gopherus.c:544-595 | for every file the chunked copy equals taking the first matching line out; a file that cannot be opened stays as it is |
| `Bookmarks.CopyDown` | gopherus.c:578-594 | moves the rest of the file down over the line for any sizes, although reads and writes overlap |
| `Bookmarks.CopyStep` | gopherus.c:580-591 | one chunk: what is still to be read is not overwritten |
| `Bookmarks.FindLine` | gopherus.c:552-577 | in every file the search finds the first matching line, the last one with or without a line feed, unless a line of 656 characters or more is in front of it |
| `Bookmarks.EveryFile` | readflin.c:18-27 | every file is lines that end in a line feed and what follows the last one |
| `Bookmarks.DeletedFromText` | gopherus.c:544-595 | for every file deletion takes out exactly the first matching line the search gets to, all other bytes in order |
| `Bookmarks.AddedToText` | gopherus.c:488-541 | for every file adding a location that is not found appends its entry to what follows the last line feed, and a line feed |
| `Bookmarks.EntryFields` | gopherus.c:525-537 | the fields of a written entry are selector, host and port |
| `Bookmarks.EntryShows` | gopherus.c:525-537 | in front of the fields are the item type and the text shown, and nothing is behind them |
| `Bookmarks.LabelIsUrl` | gopherus.c:525-537 | the text shown is the URL of the location without gopher://, if that has no escapes and the item type in it |
| `Bookmarks.LabelReads` | gopherus.c:525-537 | read as a gopher URL it gives the location back, with type '1' if there is no selector |
| `Bookmarks.ShortLines` | gopherus.c:387-414 | the columns a line does not have are missing fields |
| `Bookmarks.FullLineMatches` | gopherus.c:503-574 | a line with four columns is the location iff the host is in any case, the selector, and the port, in 16 bits when adding |
| `Bookmarks.ShortLineMatches` | gopherus.c:503-574 | without a port column the port is 70; without a host column a line is no location, and is deleted only for a caller without a host |
| `Bookmarks.NoSelectorIsEmpty` | gopherus.c:572-574 | deleting without a selector is deleting with the empty one |
| `Bookmarks.EntryIsRecognised` | gopherus.c:503-511 | a location is recognised in its own entry iff neither its host nor its selector holds a TAB |
| `Bookmarks.DeletesIsMatch` | gopherus.c:566-574 | what delbookmark takes for a bookmark, addbookmarkifnotexist recognises |
| `Bookmarks.EntryIsMatched` | gopherus.c:503-574 | both operations recognise the entry of a location iff its host and selector hold no TAB |
| `Bookmarks.AddTwice` | gopherus.c:488-541 | for every file, adding a location twice is adding it once iff it was found at first or the line written is read back as this location |
| `Bookmarks.AddTwiceToLines` | gopherus.c:488-541 | in a file that ends in a line feed: iff it was found, or has no TAB, a short entry, and no line too long in the file |
| `Bookmarks.LastLineIsGlued` | gopherus.c:519-537 | behind a last entry without a line feed, a location on another host is glued to it, added again, and never deleted to the original bytes |
| `Bookmarks.MenusGlued` | gopherus.c:519-537 | an instance: the menus of hosts h and g |
| `Bookmarks.LongQueryHidesTheRest` | gopherus.c:494-499 | after a query result with a selector of 356 characters every location is added again and not deleted |
| `Bookmarks.EntryBound` | gopherus.c:495 | the line buffer holds the entry of whatever the parser's buffers hold |
| `Bookmarks.ParsedIsPlain` | gopherus.c:495 | every location parsed from a URL without TABs and line feeds can be read back |
| `Bookmarks.TabBookmarkedTwice` | gopherus.c:503-537 | a query result is bookmarked twice |
| `Bookmarks.AddThenDelete` | gopherus.c:488-595 | for every file, adding a location and deleting it gives the original bytes back iff: for a new one, the file ends in a line feed and the entry can be read back; for one that was there, deletion does not find it |
| `Bookmarks.AddKeepsUnique` | gopherus.c:490-517 | adding keeps at most one line for a location |
| `Bookmarks.CutKeepsUnique` | gopherus.c:578-594 | so does taking a line out |
| `Bookmarks.RunKeepsUnique` | gopherus.c:488-595 | no run of deletes and of adds of plain locations creates two bookmarks for one location |
| `Bookmarks.RunFromEmpty` | gopherus.c:488-595 | in particular from an empty file on |
| `Bookmarks.AddedTwiceFromEmpty` | gopherus.c:488-541 | plain is the exact condition: adding a location twice to an empty file leaves one line for it iff it is plain, and two otherwise |
| `LineEditor.Editor.CloseGap` | gopherus.c:657-669 | the shift loop removes one character |
| `LineEditor.Editor.OpenGap` | gopherus.c:671-674 | the shift loop makes room for one |
| `LineEditor.Editor.KeyBackspace` | gopherus.c:657-663 | implements backspace at the cursor |
| `LineEditor.Editor.KeyDelete` | gopherus.c:664-669 | implements delete at the cursor |
| `LineEditor.Editor.KeyInsert` | gopherus.c:670-678 | implements insert, with no effect on a full buffer |
| `LineEditor.Editor.Key` | gopherus.c:642-678 | one key on the array is one key on the abstract text |
| `LineEditor.EditString` | gopherus.c:624-682 | for every key sequence the string left in the array is the abstract one; the result is non-zero iff ENTER comes before ESC and TAB, and so it tells a change exactly when ENTER ends the editing just if the string has changed; each column the cursor is put in is that of the abstract state, and lies in a field at least nine wide |
| `LineEditor.ResultIsNotChange` | gopherus.c:623-682 | ENTER alone gives a non-zero result for any string unchanged; backspace and ESC change a string with the result 0 |
| `LineEditor.PressKeeps` | gopherus.c:642-678 | 0 <= cursor <= length <= maxlen - 1 |
| `LineEditor.EditLaws` | gopherus.c:657-678 | backspace undoes insert, delete undoes insert and left, right and backspace is delete |
| `LineEditor.CursorKeys` | gopherus.c:646-656 | HOME, END, LEFT and RIGHT move the cursor inside the text and change nothing else |
| `LineEditor.TextKeys` | gopherus.c:657-678 | with the text in two parts around the cursor: which character goes where, which one is taken, and that other keys do nothing |
| `LineEditor.OffsetIs` | gopherus.c:631-639 | the end of the text is shown, unless that leaves fewer than eight characters in front of the cursor |
| `LineEditor.Editor.Show` | gopherus.c:631-641 | the displayed part starts inside the string, and the cursor column is inside a field at least nine wide |
| `LineEditor.SessionNext` | gopherus.c:629-679 | a further key acts on the state the keys before it left |
| `LineEditor.ColumnInField` | gopherus.c:631-640 | the cursor column is always in the field iff the field is at least nine wide |
| `LineEditor.OffsetInText` | gopherus.c:631-639 | the text shown starts at or in front of the cursor |
| `Utf8Screen.DecodeOne` | gopherus.c:420-452 | between characters the encoding of a character (section 3 of RFC 3629) decodes to it |
| `Utf8Screen.InterruptOne` | gopherus.c:424-457 | in the middle of a character the next one turns into one dot a byte, and the decoder is clean again |
| `Utf8Screen.DecodeInvertsEncode` | gopherus.c:420-458 | decoding inverts encoding on every text |
| `Utf8Screen.DecoderResynchronises` | gopherus.c:420-458 | from any state all characters after the first decode correctly |
| `Utf8Screen.FeedConcat` | gopherus.c:420-458 | the decoder's state is all that matters between two runs of bytes |
| `Utf8Screen.FeedErrors` | gopherus.c:424-457 | a byte gives a dot and a clean state iff it does not fit: not a continuation inside a character, a continuation or 0xF8-0xFF between characters (or is a dot) |
| `Utf8Screen.FeedFits` | gopherus.c:424-451 | bytes that fit: ASCII as it is, leads with the number of bytes to come, six more bits from each of those |
| `Utf8Screen.Painter.Utf8ToInt` | gopherus.c:420-458 | the masks and the two static variables do what the byte's kind and the decoder state say: a byte out of place gives a dot and a clean state |
| `Utf8Screen.Painter.PutGlyph` | gopherus.c:474-480 | TABs become spaces, control characters dots |
| `Utf8Screen.Painter.DrawGlyphs` | gopherus.c:469-481 | the first loop paints the decoded values from column x on |
| `Utf8Screen.Painter.DrawStr` | gopherus.c:465-485 | paints exactly len consecutive cells: the decoded string, then blanks |
| `Utf8Screen.DrawnText` | gopherus.c:465-485 | cell k shows character k of the text, a TAB as a space and other control characters as dots, and blanks follow |
| `HttpHeaders.Scan` | gopherus.c:748-763 | finds the data behind the first blank line of the buffer, or that there is none followed by enough |
| `HttpHeaders.Socket.Recv` | gopherus.c:737 | the network as a script: some of the bytes that come next, or the end |
| `HttpHeaders.SkipHeaders` | gopherus.c:723-765 | without a timeout, succeeds iff the first blank line fits the buffer with a byte to follow (or is LF CR LF), for every way of cutting the stream; leftover plus unread bytes are the body |
| `HttpHeaders.MoveLeftover` | gopherus.c:758-761 | the leftover moves to the front of the buffer |
| `HttpHeaders.TakeBody` | gopherus.c:757-761 | what is kept in the buffer and the unread bytes are the body |
| `HttpHeaders.PrefixBlank` | gopherus.c:746-757 | the first blank line of what has been received is that of the stream |
| `HttpHeaders.NothingWithin` | gopherus.c:734-743 | a full buffer without a blank line means that the stream has none within it |
| `HttpHeaders.BodyFound` | gopherus.c:756-761 | what is kept and what is unread make up the body |
| `HttpHeaders.BodyIsUnique` | gopherus.c:723-765 | two ways of cutting the stream give the same body |
| `HttpHeaders.BodyBehindBlank` | gopherus.c:748-761 | the body begins right behind the first LF LF or LF CR LF of the stream |
| `HttpHeaders.ResponseBody` | gopherus.c:748-761 | for header lines, an empty line in either form and a body, leftover plus unread bytes are that body |
| `MenuCursor.View.constructor` | gopherus.c:1187-1203 | the first view, or the one remembered in the history node |
| `MenuCursor.View.Handle` | gopherus.c:1388-1480 | the key switch does what `Press` says |
| `MenuCursor.View.GoUp` | gopherus.c:1392-1409 | previous link, or one row up |
| `MenuCursor.View.GoDown` | gopherus.c:1433-1463 | next link when in reach, or one row down |
| `MenuCursor.View.GoPageUp` | gopherus.c:1410-1427 | a page up, selecting the last visible link if the selection went off below |
| `MenuCursor.View.GoPageDown` | gopherus.c:1464-1480 | a page down, selecting the first visible link if the selection went off above |
| `MenuCursor.PressKeeps` | gopherus.c:1388-1480 | the selection is a link or -1, the offset a row of the menu |
| `MenuCursor.RunStaysInMenu` | gopherus.c:1388-1480 | so after every run of keys from the first view, with the selection between first and last link |
| `MenuCursor.PagingSelectsVisible` | gopherus.c:1410-1480 | a page key selects the last, or first, link on screen when the selection went off below, or above, and leaves it alone otherwise |
| `MenuCursor.DownStep` | gopherus.c:1433-1463 | KEY_DOWN selects the next link or scrolls by one row, and skips no link |
| `MenuCursor.DownReaches` | gopherus.c:1433-1463 | a bounded number of presses reaches any link below |
| `MenuCursor.DownVisitsAllInOrder` | gopherus.c:1433-1463 | from the first view KEY_DOWN alone selects every link in its turn, row s after at most s - first + linecount presses |
| `MenuCursor.DownMoves` | gopherus.c:1433-1463 | KEY_DOWN exactly, from any position: the nearest link below if it is on screen now or after one row, and otherwise only scrolling |
| `MenuCursor.UpStep` | gopherus.c:1392-1409 | KEY_UP exactly, from any position: the nearest link above if it is not above the screen, after one row if need be |
| `MenuCursor.UpVisitsAllInOrder` | gopherus.c:1392-1409 | from any position KEY_UP alone selects every link above in its turn, within selected - s + offset presses |
| `MenuCursor.HomeAndEnd` | gopherus.c:1388-1432 | HOME goes to the first link and row 0, END to the last link with the last row on screen |
| `MenuCursor.PageOffsets` | gopherus.c:1410-1467 | a page key moves by a whole window, or to the top, or not at all with the last row on screen |
| `MenuCursor.EmptyPage` | gopherus.c:1418-1479 | a page without a link leaves the selection alone |
| `MenuCursor.SelectableIs` | gopherus.c:1040-1050 | every row can be selected but line continuations and types i, 3 and '.' |
| `CStrings.AtoiOfDecimal` | parseurl.c:148 | a port printed with %u is read back by atoi |
| `CStrings.AtoiOfText` | parseurl.c:77-81 | a number is read behind white space, with a sign, and up to the first character that is no digit |
| `CStrings.AtoiOfNoNumber` | parseurl.c:77-81 | text that begins with no number reads as 0 |
| `CStrings.DecimalIsCanonical` | parseurl.c:148 | a port is printed without leading zeros |
| `CStrings.SameNoCaseIs` | dnscache.c:29 | strings are the same without case iff at each place the characters are equal or the two cases of one ASCII letter |

## Left out

- UrlMachine.BuildGopherUrl: buffers without a cell, and those that the part of a classic URL in front of its selector does not fit.
- UrlMachine.BuildTail: likewise, buffers that the part in front of the selector does not fit.
- Bookmarks.RunKeepsUnique: adds of locations that are not plain, for which it fails (AddedTwiceFromEmpty), and files to start from with a line too long or a last line without a line feed (LongQueryHidesTheRest, LastLineIsGlued).
- HttpHeaders.SkipHeaders: the clock is a script of answers, each either "timed out" or "so many bytes came in".
- MenuCursor.View.constructor: a remembered position belongs to the same menu; a page that was evicted and came back with fewer lines is not modelled.
- Sockets, name resolution, curses and DOS screen code, file-system wrappers, and the libraries under watt32 and libd2sock: foreign calls.
- menu_explode, which splits a whole menu into rows: its row types, first and last link are inputs of the selection machine.
- genfnamefromselector, the file name offered for a download.
- The HTML-to-text filter, the raw-text filter, configuration file, command line, key codes and status bar: plumbing.
- loadembeddedstartpage's insertion of bookmarks into the welcome page.
- loadfile_buff's byte counts and its requests; a load is an abstract result of at most PAGEBUFSZ bytes or a failure.
- Allocation failures, overflow inside atoi, and resizing the screen during a session.
- The text layout of the C arrays that idocgen and grams print.
