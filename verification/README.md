# A verified model of the core of libxml2

This project models seven components of libxml2 in Dafny and proves what they are for. The
models follow the C code branch by branch: code that updates tables, buffers, lists, stacks and
pointers in place is a class or a method with loops, and it is proved against definitions that do
not mention it.

- **The string dictionary** (dict.c; `DictHash`, `OpenAddressing`, `RobinHood`, `DictTable`, `Dict`,
  `DictRuns`). A Robin Hood table unrolled from a free bucket is a sequence with ascending home
  positions. Growing without comparing displacements and inserting with a shift around the end of
  the array keep that order.
  Over every run of calls, equal strings have equal handles and different strings have different
  ones, across the sub-dictionary too, and strings never move; lookups with an empty prefix are the
  one exception, and it is known exactly when they are.
- **The HTML tokenizer** (HTMLparser.c; `HtmlBytes`, `TagLookahead`, `TagGrammar`, `TagParser`,
  `TagBytes`, `TagAgreement`, `CommentLookahead`, `HtmlText`, `HtmlTextEnds`, `HtmlReferences`,
  `HtmlCharData`). The push parser's resumable
  lookaheads, fed in any chunks, find exactly the ends at which the real tag and comment parsers
  stop, and the names, attribute values and comments parsed then are those that one parse of
  everything gives. Character data does not depend on how the input is cut, in any data mode.
- **The open-element stack and the attribute table** (HTMLparser.c; `HtmlElements`, `HtmlClosing`,
  `AttrHash`). Every run is that of a reference machine on stacks, its events are well nested, and
  html, head and body are in their places after each of them. Which elements an end tag may close is
  said by their names. Duplicate attributes are removed in place through an open-addressing table
  that is never full.
- **Canonical XML** (c14n.c, list.c; `OrderedInsert`, `LinkedList`, `C14nOrder`, `C14nScope`,
  `C14nNamespaces`). The stack of rendered namespaces with its three indices decides exactly
  whether a declaration says something that the parent's scope does not say. The output preserves
  namespace meaning, repeats nothing, and does not depend on the order of declarations. The heap
  list sorts stably because it inserts twice.
- **Transcoders and conversion loops** (encoding.c; `Unicode`, `UnicodeSyntax`, `Transcoders`,
  `InputConverter`, `CharRef`, `OutputConverter`). Exact acceptance by the syntax of the RFCs, round trips, and one stream of characters
  whatever the chunks, limits and buffer sizes.
- **Byte buffers** (buf.c; `ByteBuffer`). Both kinds refine a byte sequence under every
  interleaving of operations, and growing copies a bounded amount.
- **Catalogs** (catalog.c; `CatalogUrn`, `CatalogQuery`, `CatalogStore`, `CatalogRules`,
  `CatalogResolve`, `CatalogLimits`, `CatalogEndless`, `CatalogAnswers`, `CatalogDelegates`,
  `CatalogDelegation`, `CatalogLoop`). Resolution terminates on every finite set of catalogs, cyclic
  or not, with exactly the outcome of a machine with the same depth counters; what a single list
  makes of an identifier is said by the kinds and names of its entries. Once the lists are loaded, the counters stop exactly the resolutions
  that would not end without them, and without cycles none. A resolution that they do not stop is
  resolution without limits and restores all counters. Every URI returned comes from a matching
  entry.

## Where the code does less than it seems to

Each of these is shown by the members named, and where it breaks what the code is for, with the
exact condition.

- `xmlStrQEqual` never matches an empty prefix, so `xmlDictQLookup("", n)` adds a string again
  each time it is called (`DictRuns.EmptyPrefixTwice`), and may hide one of the sub-dictionary
  (`DictRuns.EmptyPrefixHidesSub`). It does no harm exactly if neither dictionary holds `:n`
  (`Dictionary.UnmatchedCanonicalIff`).
- Two attributes in different namespaces whose declarations have no prefix are each smaller than
  the other for the C14N comparator, so their order in the output depends on the order in the tree
  (`C14nOrder.ClashShows`, exact condition in `C14nOrder.AttrOrderIff`).
- An end tag whose name does not begin with a letter is a bogus comment and may end before the
  position that the tag lookahead reports (`TagAgreement.BogusEndTagDisagrees`). They agree exactly
  if the automaton is not inside quotes at the first `>` (`TagAgreement.BogusEndTagIff`); enough data
  is there in any case (`TagAgreement.LookaheadSuffices`, `TagAgreement.PushEndTag`).
- A misplaced html, head or body tag that ends in `/>` opens nothing but closes the element around
  it (`HtmlElements.ElementStack.DiscardedTagCloses`, in general
  `HtmlElements.ElementStack.ParseElement`).
- When a catalog list is over the depth limit after a next catalog was tried, it is left without
  its counter being taken back. A counter grows by exactly the number of times that happens to its
  list (`CatalogLimits.CountersAreExact`), and a list above the limit finds nothing any more
  (`CatalogLimits.StaysSilent`). One lookup of an unknown name silences a list whose next catalog is
  itself (`CatalogLoop.SilenceList`). Nothing is stopped or leaked by a resolution that would end
  without counters, and every other one is stopped: in catalogs whose lists are loaded and whose
  counters are at most 45, that is the exact condition (`CatalogEndless.StopsExactlyTheEndless`,
  `CatalogLimits.CountersDoNotMatter`, `CatalogLoop.LoopIsEndless`).
- At the end of UTF-16 input, a truncated character is an error only if no complete one precedes it
  in the same chunk (`InputConverter.CutOffCharacters`, exact condition for a chunk in
  `InputConverter.CutOffSeenIff` and for a call in `InputConverter.CharEncInput`).

## Reading the model

C strings are sequences of bytes without a zero byte, or with a zero byte where a buffer may hold
one. Pointers into the string pools are handles. Sizes are unbounded integers; where the code
depends on a bound (`SIZE_MAX`, `INT_MAX`, the 2000-byte buffer for URNs, 100-byte names, table
sizes) the bound is written out, and the contracts show that no sum on the way exceeds it.
Masks with a power of two are remainders, and shifts are divisions and multiplications.
Failing allocations in the dictionary are Boolean parameters. Ghost parameters that name a text or
a table position carry no run-time meaning.

## Model

| member | source | states |
|---|---|---|
| DictHash.HashName | dict.c:441-457 | the loop over a name computes the same hash as folding its C string, cut at the maximum length, and returns that length; the hash is never 0 |
| DictHash.HashQName | dict.c:460-487 | hashing a prefix and a name in two loops gives the hash of the joined string `prefix:name` |
| RobinHood.ToLinear | dict.c:536-588 | unrolled from a free bucket, a table in Robin Hood order has ascending home positions and no entry before its home, wrap-around included |
| RobinHood.FromLinear | dict.c:536-588 | the converse: a table that is linear when unrolled is in Robin Hood order at every bucket, the wrap-around ones too |
| RobinHood.HomesAscend | dict.c:618-624 | within a run of occupied buckets homes ascend, which is why growing needs no displacement comparison |
| RobinHood.ProbeReaches | dict.c:545-583 | a probe that stops at the first bucket with a smaller displacement passes every bucket between an entry's home and the entry |
| RobinHood.InsertKeepsLinear | dict.c:766-797 | shifting the rest of a run by one and writing the new entry where the probe gave up keeps the order |
| RobinHood.InsertAddsEntry | dict.c:766-799 | the shift adds exactly the new entry, as a multiset, and one occupied bucket |
| RobinHood.HomeInHalf | dict.c:618-644 | an entry's home in the doubled table is its old home, in one half or the other |
| RobinHood.GrowPlace | dict.c:631-644 | copying the next entry to the first free bucket from its new home keeps both halves of the new table in order and its contents exact |
| RobinHood.GrowDone | dict.c:597-653 | when all entries are copied, the new table holds exactly the same entries and is in Robin Hood order |
| DictTable.ProbeFinds | dict.c:545-583 | every entry of an ordered table is reached from its home by buckets that the probe passes |
| DictTable.GivesUpStops | dict.c:545-583 | the bucket where a probe gives up is a correct insertion point in the unrolled table |
| DictTable.ProbeInsert | dict.c:741-757 | after growing, the second probe loop ends at a bucket where a probe for the hash gives up |
| DictTable.GrowTable | dict.c:597-653 | copying from the first free bucket on with plain linear probing gives a table of twice the size in Robin Hood order with the same entries |
| DictTable.CopyEntry | dict.c:631-644 | one round of that copy keeps the growing invariant; a free bucket is always met |
| DictTable.FindGap | dict.c:769-777 | the first free bucket behind the insertion point, across the end of the array |
| DictTable.MoveUp | dict.c:779-790 | the two memmoves and the copy of the last bucket move each bucket between the insertion point and the gap up by one, around the end |
| DictTable.InsertOrder | dict.c:766-799 | shifting around the end of the array keeps Robin Hood order and adds exactly one entry |
| DictTable.InsertEntry | dict.c:766-799 | the same for the array in place |
| Dictionary.DictStrings.Append | dict.c:170-183 | bytes are appended behind what a pool holds; nothing before them changes |
| Dictionary.Dict.constructor | dict.c:252-295 | a new dictionary is valid and empty, has no table yet, and shares the seed of its sub-dictionary |
| Dictionary.Dict.EqualsName | dict.c:559-568 | comparing a stored string with length and terminator is comparing with the C string |
| Dictionary.Dict.EqualsQName | dict.c:569-574 | comparing a stored string with prefix and name is comparing with the joined string, for every prefix that is not empty; with an empty one nothing matches |
| Dictionary.Dict.FindEntry | dict.c:536-588 | finds the bucket of exactly this string if it is interned, and otherwise a bucket where a probe for its hash gives up |
| Dictionary.NotInterned | dict.c:536-588 | a probe that gave up without a match shows that the string is not in the table |
| Dictionary.Dict.FindPool | dict.c:129-170 | a pool with room, found or new; existing pools keep their place |
| Dictionary.Dict.AddString | dict.c:129-183 | a new handle to exactly this string; every string handed out before keeps its bytes; it only fails without a pool, and then the pools are as they were |
| Dictionary.Dict.AddQString | dict.c:196-245 | the same for `prefix:name` |
| Dictionary.StringKept | dict.c:129-245 | a string in a pool is still there after anything was appended to the pool |
| Dictionary.Dict.Grow | dict.c:597-653 | the table has the new size, the same names, and room for one more below 7/8; a failed allocation changes nothing |
| OpenAddressing.PowersBelow | dict.c:704-711 | a power of two below the maximum doubles to at most the maximum |
| Dictionary.Dict.Insert | dict.c:732-802 | adds exactly the string under a new handle, or nothing; the invariant also holds when the string allocation fails after growing |
| Dictionary.Dict.LookupInternal | dict.c:664-802 | the whole lookup: found here, found in the sub-dictionary, added, or refused, with the table's invariant (power-of-two size, at most 7/8 full, Robin Hood order) kept and handed-out strings unmoved |
| Dictionary.Dict.Lookup | dict.c:813-821 | the handle of the C string: the known one if it is interned here or in the sub-dictionary, else a new one; it only fails for want of memory, if the pools are larger than the limit, or on a full table of the maximal size |
| Dictionary.Dict.Exists | dict.c:857-865 | changes nothing at all and finds exactly what is interned |
| Dictionary.Dict.QLookup | dict.c:877-885 | agrees with a lookup of `prefix:name` if the prefix is not empty; with an empty prefix it never matches |
| Dictionary.LookedKeeps | dict.c:664-802 | a lookup keeps strings unique, forgets none and moves none |
| Dictionary.StepKeeps | dict.c:664-885 | a call keeps the pair of dictionary and sub-dictionary canonical (each string once, and none in both), unless it is a lookup with an empty prefix that finds nothing and adds a string that is there already |
| Dictionary.RunKeeps | dict.c:664-885 | along every run without such calls names stay under their handles, and no string of the sub-dictionary is added |
| Dictionary.InterningIsCanonical | dict.c:664-885 | over every run without such calls two successful calls return the same handle exactly when the strings are equal |
| Dictionary.UnmatchedCanonicalIff | dict.c:569-574 | a successful lookup with an empty prefix keeps the pair canonical exactly if neither dictionary held `:name` before, which `xmlDictExists` tells |
| DictRuns.Perform | dict.c:813-885 | every call of Lookup, QLookup or Exists on a dictionary is such a step, and the next call starts from the names that it leaves |
| DictRuns.PerformAll | dict.c:813-885 | any sequence of calls on a dictionary: successful results are equal exactly when the strings are, if every call with an empty prefix is harmless, as it is without empty prefixes |
| DictRuns.EmptyPrefixTwice | dict.c:569-574 | on a new dictionary, two lookups of the empty prefix with one name give two handles to one string |
| DictRuns.EmptyPrefixHidesSub | dict.c:569-574 | a lookup of the empty prefix hides a string of the sub-dictionary: `xmlDictLookup(":a")` gives its handle before and another handle to the same string after |
| TagLookahead.Lookahead.LookupGt | HTMLparser.c:4749-4838 | a call resumes the automaton where the last one stopped, and succeeds exactly when the automaton, run over the whole buffer, does |
| TagLookahead.ScanResumes | HTMLparser.c:4749-4838 | an automaton stopped at the end of the data and resumed with more gives the outcome of one scan; an outcome found stays |
| TagLookahead.FeedAll | HTMLparser.c:4749-4838 | fed in any chunks, the lookahead succeeds first at the position where one scan of everything succeeds |
| TagGrammar.PieceStays | HTMLparser.c:2655-2770 | a reference, character or byte in front of an unrelated ASCII byte stands for the same text whatever follows that byte |
| TagGrammar.PieceEnds | HTMLparser.c:2548-2848 | no reference or character hides a terminator |
| TagGrammar.DataStays | HTMLparser.c:2548-2848 | the text of data that has ended does not depend on what follows, comments included |
| TagGrammar.AttrsStay | HTMLparser.c:3843-3916 | an attribute list that has ended has the same end and the same attributes with any input behind it |
| TagGrammar.TagStays | HTMLparser.c:3776-3921 | so has a tag, its name included |
| TagGrammar.NameIsLower | HTMLparser.c:2344-2357 | names hold no byte from A to Z |
| TagGrammar.AsciiName | HTMLparser.c:2344-2357 | an ASCII name of at most 100 bytes is kept whole, with A to Z replaced by a to z |
| TagGrammar.PlainDataIsItself | HTMLparser.c:2548-2848 | data without references, carriage returns, zero bytes and bytes beyond ASCII stands for itself |
| TagBytes.BlanksByBytes | HTMLparser.c:437-480 | blanks are tab, line feed, form feed, carriage return and space |
| TagBytes.NameByBytes | HTMLparser.c:2344-2350 | behind its first byte a name ends at a blank, `/`, `>` or, for attributes, `=`, and nowhere else |
| TagBytes.DataByBytes | HTMLparser.c:2617-2640 | quoted values end at their quote, unquoted ones at a blank or `>`, bogus comments at `>` |
| TagBytes.ValueByBytes | HTMLparser.c:2873-2894 | which quote opens a value, and that its closing quote is passed |
| TagBytes.EndTagByBytes | HTMLparser.c:4055-4068 | an end tag has a name exactly if a letter follows; otherwise it ends at the first `>` |
| TagBytes.AttrsByBytes | HTMLparser.c:3843-3850 | an attribute list ends at `>` or `/>` |
| TagBytes.PieceByBytes | HTMLparser.c:2655-2770 | what each byte of a value or comment stands for: itself, a line feed, or the replacement character |
| TagParser.TagInput.SkipBlanks | HTMLparser.c:437-480 | stops at the first byte that is no blank |
| TagParser.TagInput.ParseHTMLName | HTMLparser.c:2311-2397 | the name up to its end: no byte from A to Z, an ASCII name of at most 100 bytes whole with those bytes lowered, multi-byte characters kept, invalid bytes replaced, and what does not fit dropped |
| TagParser.TagInput.StartRef | HTMLparser.c:2673-2711 | what a `&` begins: a numeric reference with this base exactly if its first digit is there, a named one with this length and text exactly if the table has it, or a plain `&` |
| TagParser.TagInput.ParseChunk | HTMLparser.c:2560-2800 | one round over data, references and replaced bytes delivers the text of the pieces that it passes, and passes no terminator |
| TagParser.TagInput.ParseData | HTMLparser.c:2548-2848 | stops at the first terminator that the mask admits, and returns the text of everything before it, references and replaced bytes included |
| TagParser.TagInput.ScanChunk | HTMLparser.c:2580-2770 | the inner loop: bytes that stand for themselves, then a terminator, a reference or a byte that is replaced, with what replaces it |
| TagParser.TagInput.ParseAttValue | HTMLparser.c:2873-2894 | the text of a quoted or unquoted value; stops behind the quote, or at the end of an unquoted value |
| TagParser.TagInput.ParseAttribute | HTMLparser.c:3597-3619 | the name and the value, if there is one; stops at the end of the attribute |
| TagParser.TagInput.ParseAttributes | HTMLparser.c:3843-3916 | the attribute loop, stray solidi included: all attributes in order, up to where the list ends |
| TagParser.TagInput.ParseStartTag | HTMLparser.c:3776-3921 | the name, the attributes and the `>` of a start tag |
| TagParser.TagInput.ParseEndTag | HTMLparser.c:4040-4104 | the `>` of an end tag, of `</>`, or of the bogus comment, and the name that is closed, if there is one |
| TagParser.TagInput.ParseBogusComment | HTMLparser.c:3369-3405 | ends at the first `>`, with the text before it |
| TagParser.TagInput.ParseComment | HTMLparser.c:3369-3405 | ends where the reference definition of a comment ends, `<!-->`, `<!--->` and `--!>` included, with its text |
| TagAgreement.ValueAgrees | HTMLparser.c:4790-4830 | over an attribute value the automaton and the parser move together |
| TagAgreement.AttributeAgrees | HTMLparser.c:4770-4830 | over an attribute they move together and are again in matching states |
| TagAgreement.AttrsAgree | HTMLparser.c:4749-4838 | the automaton accepts exactly where the parser's attribute loop ends |
| TagAgreement.TagsAgree | HTMLparser.c:4749-4838 | for every start tag and every end tag whose name begins with a letter, the automaton succeeds on exactly the `>` at which the parser stops |
| TagAgreement.PushStartTag | HTMLparser.c:4749-4838 | waiting for the lookahead in any chunks and then parsing gives the end, the name and the attributes that one parse of everything gives; the name is in lower case |
| TagAgreement.PushEndTag | HTMLparser.c:4040-4104 | the same for every end tag, bogus comments included: the same end, and the same element closed |
| TagAgreement.EndTagStays | HTMLparser.c:4040-4104 | when the lookahead succeeds on an end tag, more data changes neither its end nor what it closes |
| TagAgreement.BogusEndTagDisagrees | HTMLparser.c:4065-4068 | a concrete end tag that is a bogus comment ends earlier than the lookahead says |
| TagAgreement.BogusEndTagIff | HTMLparser.c:4065-4068 | for every end tag that is a bogus comment, lookahead and parser agree exactly if the automaton is not inside quotes at the first `>` |
| TagAgreement.LookaheadSuffices | HTMLparser.c:4065-4068 | for every end tag the data holds the real end when the lookahead succeeds |
| CommentLookahead.StrStr | HTMLparser.c:4849-4892 | the first occurrence before any zero byte |
| CommentLookahead.StringLookahead.LookupString | HTMLparser.c:4849-4892 | the first occurrence from the resume point on; after a failure the resume point skips no occurrence that more data could complete |
| CommentLookahead.StringLookahead.LookupCommentEnd | HTMLparser.c:4903-4932 | an end of the comment, and the first one if there is no zero byte; a failure leaves a resume point behind which no end begins |
| CommentLookahead.CommentsAgree | HTMLparser.c:3369-3405 | the first end that the lookahead can find is where the comment parser stops |
| CommentLookahead.PlainCommentText | HTMLparser.c:3369-3405 | the text of a comment in plain ASCII is what stands between `<!--` and its first end |
| CommentLookahead.PushComment | HTMLparser.c:4903-4932 | for all input, cut anywhere, the push parser's comment has the end and the text that one parse of everything gives |
| CommentLookahead.PushFind | HTMLparser.c:4849-4892 | for zero-free input, cut anywhere, the search finds the first occurrence that one search of everything finds |
| HtmlText.RefExtends | HTMLparser.c:3169-3237 | a reference decided with part of the data is decided the same with all of it |
| HtmlText.LtExtends | HTMLparser.c:3082-3147 | the same for a `<` in every mode, the script-escape states included |
| HtmlText.StepExtends | HTMLparser.c:2964-3361 | a step that did not wait for more data is the step taken with all the data |
| HtmlText.TextSplits | HTMLparser.c:2964-3361 | a partial call on a prefix followed by a call on the rest is one call on everything: text, bytes used, mode and completion |
| HtmlText.ChunksDoNotMatter | HTMLparser.c:2964-3361 | in every mode any cutting of the input gives the same text, stop position, final mode and completion as one call |
| HtmlTextEnds.LtEndsText | HTMLparser.c:3075-3085 | ordinary text ends at the first `<` |
| HtmlTextEnds.TagEndsText | HTMLparser.c:3095-3140 | the text of title, style and the like, and of scripts without `<!--`, ends at the first end tag of that name in either case, and at no other byte |
| HtmlTextEnds.PlainTextNeverEnds | HTMLparser.c:3082-3092 | plaintext never ends |
| HtmlTextEnds.OrdinaryText | HTMLparser.c:2964-3361 | text without references, carriage returns, zero bytes and bytes beyond ASCII is delivered as it is |
| HtmlReferences.DigitsWorth | HTMLparser.c:3055-3079 | the digits of a reference are all that are there, and its code point is the sum of their places, up to 0x110000 |
| HtmlReferences.ReferenceStands | HTMLparser.c:3169-3237 | a decimal or hexadecimal reference stands for the character of that number and takes a semicolon behind it |
| HtmlReferences.CodePointText | HTMLparser.c:2405-2440 | the character is written in UTF-8; the replacement character for what is none |
| HtmlReferences.ControlsLeft | HTMLparser.c:2398-2415 | C1 controls are replaced but for the five that Windows-1252 leaves out |
| HtmlReferences.DecimalRoundTrip | HTMLparser.c:3055-3079 | the reference that the serializer writes for a character is read back as that character |
| HtmlReferences.HexRoundTrip | HTMLparser.c:3055-3079 | so is every hexadecimal reference to it, in either case and with leading zeros |
| HtmlReferences.ValueReads | HTMLparser.c:2640-2660 | the same in attribute values |
| HtmlCharData.TextInput.CheckLt | HTMLparser.c:3082-3147 | the lookahead at `<` does what the step function says |
| HtmlCharData.TextInput.CheckDash | HTMLparser.c:3149-3167 | the same at `-` |
| HtmlCharData.TextInput.CheckRef | HTMLparser.c:3169-3237 | the same at `&` |
| HtmlCharData.TextInput.NumericRef | HTMLparser.c:3055-3079 | the digit loop computes the capped code point and its length |
| HtmlCharData.TextInput.NameEnds | HTMLparser.c:3194-3209 | a name is known to have ended exactly if a byte that cannot continue it is there |
| HtmlCharData.TextInput.Accelerate | HTMLparser.c:3028-3046 | the skipping loop passes only bytes that stand for themselves |
| HtmlCharData.TextInput.ScanChunk | HTMLparser.c:2995-3303 | the inner loop copies a verbatim run and stops at the step that is not verbatim |
| HtmlCharData.TextInput.ParseCharData | HTMLparser.c:2964-3361 | the whole loop with its buffer delivers the text, position and mode of the reference function |
| HtmlCharData.PushCharData | HTMLparser.c:2964-3361 | a partial call per chunk and a final one deliver the text of one call on everything |
| OrderedInsert.InsertSorted | list.c:250-269 | inserting before the first element that is not smaller keeps a list sorted |
| OrderedInsert.InsertInFront | list.c:92-101 | the new element goes in front of those it compares equal to |
| OrderedInsert.PassReverses | list.c:693-708 | a pass of insertions reverses every run of equal elements |
| OrderedInsert.TwoPassesSortStably | list.c:581-603 | two passes give a sorted permutation in which equal elements keep their order |
| OrderedInsert.OnePassIsNotStable | list.c:665-708 | one pass alone does not |
| OrderedInsert.SortedUnique | list.c:250-269 | under a strict order a multiset has one sorted list |
| OrderedInsert.OrderDoesNotMatter | list.c:250-269 | so insertion in any order gives the same list |
| LinkedList.XmlList.constructor | list.c:174-203 | an empty ring around the sentinel |
| LinkedList.XmlList.LowerSearch | list.c:92-101 | the link before which the element belongs |
| LinkedList.XmlList.InsertData | list.c:250-269 | ordered insertion on the heap, next and prev links consistent |
| LinkedList.XmlList.Reverse | list.c:557-574 | exactly the reversed sequence, links consistent both ways |
| LinkedList.XmlList.RemoveFront | list.c:465-470 | the rest of the sequence |
| LinkedList.XmlList.Clear | list.c:383-397 | the empty list |
| LinkedList.XmlList.Copy | list.c:693-708 | every element of the other list inserted in order; the other list is untouched |
| LinkedList.XmlList.Walk | list.c:613-623 | visits the elements in order |
| LinkedList.XmlList.Dup | list.c:665-684 | a fresh list with the elements inserted in order |
| LinkedList.XmlList.Sort | list.c:581-603 | the two-pass insertion sort of the contents, in place |
| C14nOrder.StrCmpTransitive | c14n.c:487-500 | string comparison by bytes is transitive, with its partners StrCmpEqual and StrCmpSwaps |
| C14nOrder.StrCmpIsByteOrder | c14n.c:487-500 | a string is smaller exactly if it is a proper prefix or has the smaller byte at the first difference |
| C14nOrder.NsStrict | c14n.c:487-500 | on declarations with distinct prefixes the comparator is a strict total order |
| C14nOrder.AttrsStrict | c14n.c:866-905 | on attributes with distinct expanded names and no clash the comparator is a strict total order |
| C14nOrder.AttrOrderIff | c14n.c:866-905 | for distinct expanded names the output order is independent of the input order exactly if no two attributes are in different namespaces without prefixes |
| C14nOrder.ClashShows | c14n.c:866-905 | two such attributes, stored in front of the others, are written in the order in which they are stored, so the stored order shows |
| C14nOrder.AxisInOrder | c14n.c:866-905 | without a clash attributes are written in document order: without a namespace first, then by URI and local name in byte order |
| C14nScope.ScopeInherits | c14n.c:601-605 | what is in scope at the parent stays in scope unless redeclared |
| C14nScope.ApplyAt | c14n.c:632-645 | what reading a list of declarations does to one prefix |
| C14nScope.DeclsGiveScope | c14n.c:577-653 | reading exactly the new declarations on top of the parent's scope gives the element's scope |
| C14nScope.MinimalPreserves | c14n.c:1395-1483 | a rendering with exactly the new declarations at every element preserves namespace meaning and repeats nothing |
| C14nScope.SearchNs | tree.c:5679-5688 | the nearest declaration of a prefix: none at a lower level or before it, and none at all if nothing is found |
| C14nScope.PreservesKeepsMeaning | c14n.c:1395-1483 | what such a rendering means element by element, said of the declarations alone |
| C14nNamespaces.VisibleNsStack.Add | c14n.c:301-335 | the entry behind nsCurEnd is written; entries before it stay |
| C14nNamespaces.VisibleNsStack.Save | c14n.c:337-347 | the three indices |
| C14nNamespaces.VisibleNsStack.Restore | c14n.c:349-358 | the three indices are as saved |
| C14nNamespaces.VisibleNsStack.Shift | c14n.c:360-368 | the indices now delimit the element just processed |
| C14nNamespaces.VisibleNsStack.Find | c14n.c:388-420 | compares with the nearest entry of the prefix in the searched segment; for `xmlns=""` the whole stack is searched |
| C14nNamespaces.FindMeans | c14n.c:388-420 | with the indices right, finding a declaration is comparing it with what the prefix means at the parent |
| C14nNamespaces.NearestIsParents | c14n.c:404-418 | the nearest entry of a prefix not yet added by this element is the parent's binding |
| C14nNamespaces.PassDef | c14n.c:601-621 | passing one declaration of the axis adds it exactly if it is the one in force |
| C14nNamespaces.VisitDef | c14n.c:603-619 | one round adds the binding and lists it exactly if it says something new |
| C14nNamespaces.ScanLevel | c14n.c:602-620 | the declarations of one ancestor |
| C14nNamespaces.NoDefaultInScope | c14n.c:632-639 | without a default namespace in scope no entry of the stack has one, so the extra `xmlns=""` is not written |
| C14nNamespaces.PrintList | c14n.c:632-645 | what is written is exactly the list of new declarations |
| C14nNamespaces.ProcessNamespacesAxis | c14n.c:577-653 | the declarations written are exactly those in force that differ in meaning from the parent, sorted; the stack gains exactly the bindings in scope |
| C14nNamespaces.ShiftedStack | c14n.c:1438-1448 | after the axis and the shift, the indices delimit this element's bindings for its children |
| C14nNamespaces.ProcessElementNode | c14n.c:1395-1483 | the tree walk writes exactly the new declarations everywhere and leaves the indices and the live part of the stack as they were |
| C14nNamespaces.Canonicalize | c14n.c:1395-1483 | for every document, reading the output top-down: at every element what it declares is read there, what it does not declare is read as at its parent, nothing repeats what the parent says, and declarations are in byte order of their prefixes |
| C14nNamespaces.OutputIgnoresNsOrder | c14n.c:577-653 | documents that differ only in the order of declarations with distinct prefixes have the same output |
| Unicode.NextIff | encoding.c:2581-2628 | decoding yields a character exactly if the bytes begin with its encoding, for UTF-8 and both byte orders of UTF-16 |
| UnicodeSyntax.Utf8Syntax | encoding.c:2581-2628 | the UTF-8 decoder accepts exactly the sequences of section 4 of RFC 3629, with their numbers |
| UnicodeSyntax.Utf16Syntax | encoding.c:2501-2539 | the UTF-16 decoders accept exactly units that are no surrogates and surrogate pairs, the high byte second in UTF-16LE and first in UTF-16BE |
| UnicodeSyntax.EncodingsWritten | encoding.c:2571-2855 | what the encoders write is in that syntax |
| UnicodeSyntax.ValidatedAlike | HTMLparser.c:370-435 | the HTML tokenizer accepts the same UTF-8 |
| Unicode.NextStays | encoding.c:2488-2659 | more input changes neither a decoded character nor an error |
| Unicode.ConvertIsSound | encoding.c:2488-2855 | what is read and written encodes the same characters, within the space, and each stop has its reason in the bytes that follow |
| Unicode.ConvertResumes | encoding.c:2488-2855 | a conversion taken up again with more room, more input or both continues as one conversion |
| Unicode.ConvertAll | encoding.c:2488-2855 | a well-formed text is converted completely if there is room |
| Unicode.AcceptsIff | encoding.c:2488-2855 | with room, a conversion finishes exactly on well-formed input |
| Unicode.RoundTrip | encoding.c:2488-2855 | converting there and back gives the same bytes |
| Transcoders.DecodeUtf8 | encoding.c:2581-2628 | the decoder with its loop over continuation bytes computes the reference decoding |
| Transcoders.DecodeUtf16 | encoding.c:2501-2539 | the same for UTF-16 |
| Transcoders.Transcode | encoding.c:2488-2659 | the four converters: the reference conversion, written inside the given space and nowhere else, with its counts and result |
| InputConverter.ConvertChunk | encoding.c:1682-1722 | one chunk of UTF-16 appended to the buffer, and the truncation check that only sees chunks without output |
| InputConverter.CutOffSeenIff | encoding.c:1709-1719 | a character that is cut off is seen exactly if no complete one precedes it in the chunk |
| InputConverter.CutOffCharacters | encoding.c:1709-1719 | a single byte of UTF-16LE at the end of the input is an error alone, and none behind a letter |
| InputConverter.ChunkIsProgress | encoding.c:1817-1851 | converting part of the input into part of the room is progress of one conversion |
| InputConverter.ChunkEnds | encoding.c:1853-1863 | where the loop breaks, the whole conversion ends |
| InputConverter.LastChunk | encoding.c:1817-1871 | from a complete character on, a chunk that takes the rest stops at a complete character for want of room, and finds a cut-off character without output only if that is all of the input |
| InputConverter.Round | encoding.c:1818-1863 | one round keeps that state, and reads something unless there was no room for a character |
| InputConverter.Pump | encoding.c:1817-1871 | the loop terminates, its successful result does not depend on buffer sizes, and input of one chunk is rejected exactly if it is malformed or all of it is a character that is cut off at the end |
| InputConverter.CharEncInput | encoding.c:1793-1882 | on success exactly the conversion of the removed raw prefix is appended, its size reported and within the maximum; on an error the raw bytes stay, and they are malformed or truncated, or the output has overflowed; up to the size of one chunk and without overflow, a call rejects its input exactly if the conversion meets malformed bytes or, at the end, nothing but a cut-off character is left |
| InputConverter.OneMoreCall | encoding.c:1793-1882 | a further call continues one conversion of all raw bytes |
| InputConverter.Stream | encoding.c:1793-1882 | any sequence of successful calls, with any pieces, limits and flush flags, yields the stream of one conversion |
| CharRef.SerializeDecCharRef | encoding.c:1934-1960 | the decimal reference of the number, of at most ten bytes |
| CharRef.ReferenceReads | encoding.c:1934-1960 | the reference reads back to the number |
| CharRef.ReferenceUnique | encoding.c:1934-1960 | it is the only reference without leading zeros that does |
| OutputConverter.AsciiToAscii | encoding.c:2274-2317 | copies the longest prefix of ASCII characters that fits, on any input, and says why it stopped |
| OutputConverter.Utf8ToLatin1 | encoding.c:2412-2462 | on any input writes only into its space and says why it stopped; of UTF-8 it converts the longest prefix of characters below U+0100 that fits |
| OutputConverter.ConvertRound | encoding.c:2014-2033 | one conversion of up to 64 kB always has room, keeps input and output in step, and counts the bytes it appends |
| OutputConverter.ReferenceRound | encoding.c:2041-2071 | an unrepresentable character is removed and its reference appended, or nothing happens |
| OutputConverter.CharEncOutput | encoding.c:1976-2082 | whatever it returns, the image of exactly the removed characters has been appended: themselves, or their references; without an error at most one byte of the first 64 kB is left; `written` is the number of bytes appended |
| ByteBuffer.Buf.constructor | buf.c:84-109 | an empty buffer with a terminator |
| ByteBuffer.Buf.Empty | buf.c:215-226 | empty, and the gap is capacity again |
| ByteBuffer.Buf.Shrink | buf.c:241-256 | exactly the given number of bytes is removed in front, or none |
| ByteBuffer.Buf.MoveToFront | buf.c:276-286 | the contents at the start of the allocation, unchanged |
| ByteBuffer.Buf.GrowInternal | buf.c:270-326 | succeeds exactly if the maximum allows it, gives at least the requested space, keeps the contents, and at least doubles or pays by the request |
| ByteBuffer.Buf.Grow | buf.c:338-350 | the same, or nothing if there is enough space |
| ByteBuffer.Buf.AddLen | buf.c:392-401 | bytes written behind the content become part of it |
| ByteBuffer.Buf.Add | buf.c:458-477 | the bytes are appended, or the buffer is marked as overflowed exactly if they do not fit; the cost of growing stays covered |
| ByteBuffer.PerformAll | buf.c:215-477 | any interleaving of the operations refines a byte sequence with an overflow flag |
| ByteBuffer.AppendAll | buf.c:458-477 | from an empty buffer, appends copy at most three times the bytes appended |
| ByteBuffer.OldBuffer.Empty | buf.c:799-815 | empty, with the whole allocation as capacity |
| ByteBuffer.OldBuffer.Shrink | buf.c:826-845 | exactly the given bytes are removed, with or without moving the rest |
| ByteBuffer.OldBuffer.Grow | buf.c:856-900 | fails exactly if the size would not fit; otherwise there is room for the bytes and the terminator |
| ByteBuffer.OldBuffer.Add | buf.c:986-1005 | the bytes are appended exactly if the result fits |
| ByteBuffer.OldBuffer.AddHead | buf.c:1017-1060 | the bytes are prepended, in the gap, by moving, or after growing |
| ByteBuffer.PerformAllOld | buf.c:799-1060 | any interleaving refines the plain byte sequence, prepending included |
| CatalogUrn.NormalizePublic | catalog.c:998-1039 | nothing for a normal identifier that is not empty, and otherwise the collapsed string |
| CatalogUrn.CollapseIsNormal | catalog.c:1022-1038 | the result has single spaces between words and nowhere else |
| CatalogUrn.NormalByBytes | catalog.c:1010-1020 | normal means: of space, tab, line feed and carriage return only spaces, each between two other bytes |
| CatalogUrn.CollapseKeepsWords | catalog.c:1022-1038 | the result has exactly the words of the identifier |
| CatalogUrn.UnWrapURN | catalog.c:821-875 | a result exactly for `urn:publicid:` names, and then the expansion of the rest, cut at the size of the buffer |
| CatalogUrn.LoneColonCosts | catalog.c:830-871 | a colon without a neighbouring colon in the result used up an escape |
| CatalogUrn.UnwrapFalls | catalog.c:821-875 | unwrapping makes the measure of `%` characters and prefix smaller, also with normalization in between |
| CatalogUrn.UrnRoundTrip | catalog.c:821-875 | unwrapping undoes the transcription of RFC 3151 for every identifier of at most 1997 bytes |
| CatalogUrn.EscapesUndone | catalog.c:841-866 | the escapes that are undone are those of the transcription, and no others |
| CatalogQuery.UrnByLetters | catalog.c:1981-1995 | a name is unwrapped exactly if it begins with `urn:publicid:` |
| CatalogQuery.ReduceFalls | catalog.c:1976-2018 | each round that unwraps an identifier falls on the measure |
| CatalogQuery.CanonIsCanonical | catalog.c:1964-2018 | what is finally looked up is normal, holds no URN, and reduces to itself |
| CatalogStore.Catalogs.constructor | catalog.c:1381-1450 | catalogs are valid for any entries whose lists stay among them, cyclic or not |
| CatalogStore.Catalogs.Fetch | catalog.c:1381-1450 | an entry gets the parsed list of its file, each file is parsed once, and an entry whose file cannot be parsed becomes broken; nothing else changes |
| CatalogStore.Catalogs.ChildOf | catalog.c:1684-1687 | the list behind an entry, fetched on demand, with exactly the effect of loading it |
| CatalogStore.Catalogs.Enter | catalog.c:1604-1610 | entering a list raises its counter by one and nothing else, and makes the summed remaining depth smaller |
| CatalogStore.Catalogs.Leave | catalog.c:1808-1809 | leaving a list takes back exactly that |
| CatalogRules.FirstExactIs | catalog.c:1622-1630 | the reference for exact entries: the entry found is one, and none before it is |
| CatalogRules.ExecMore | catalog.c:1593-2106 | more steps do not change the outcome of a job, for each of the three ways to treat the depth limit |
| CatalogRules.EndsOne | catalog.c:1593-2106 | a job has one outcome |
| CatalogResolve.Scan | catalog.c:1616-1661 | the first exact entry, else the longest rewriting rule, the first of its length; and whether delegates or next catalogs exist |
| CatalogResolve.ExternalPlan | catalog.c:1614-1806 | the system identifier decides, then the public identifier, then the next catalogs |
| CatalogResolve.TryId | catalog.c:1616-1706 | an answer of the list itself is the result, matching delegates cut the search, and a list that says nothing is left unchanged |
| CatalogResolve.TryDelegates | catalog.c:1662-1701 | terminates, with exactly the outcome that trying the delegates in order has, each remembered URL once |
| CatalogResolve.TryNext | catalog.c:1787-1806 | the same for next catalogs; the search of the list ends where its counter is over the limit |
| CatalogResolve.XMLResolve | catalog.c:1593-1810 | terminates on all catalogs, with exactly the result, the loaded files and the counters of the machine that has the same counters, leaks included |
| CatalogResolve.XMLResolveURI | catalog.c:1823-1950 | the same for URI references |
| CatalogResolve.SearchLists | catalog.c:2020-2036 | the same for the loop over a list of catalogs |
| CatalogResolve.ListXMLResolve | catalog.c:1964-2040 | terminates on all catalogs, cyclic ones and unreadable files included, with exactly the outcome that the machine has for the canonical identifiers |
| CatalogResolve.ListXMLResolveURI | catalog.c:2052-2106 | the same for URI references, unwrapped URNs included |
| CatalogLimits.StrictAgrees | catalog.c:1600-1609 | a run in which no list is over its limit where the code looks is the run without limits |
| CatalogLimits.CountersAreExact | catalog.c:1593-2106 | every counter grows by exactly the number of times its list was left at the limit, so it is restored exactly if there were none |
| CatalogLimits.CountersDoNotMatter | catalog.c:1593-2106 | a resolution that no counter stops, on any catalogs, has the outcome of resolution without limits, and all counters are restored |
| CatalogLimits.AcyclicNeverStops | catalog.c:1593-2106 | catalogs without cycles whose lists are not being searched: no counter stops a resolution |
| CatalogLimits.ListDecides | catalog.c:1600-1806 | a list over its limit finds nothing; any other answers with what it says itself, and cuts the search where delegates decide |
| CatalogLimits.StaysSilent | catalog.c:1600-1609 | a list over its limit finds nothing after any later resolution either |
| CatalogDelegates.ExactSays | catalog.c:1616-1632 | the first exact entry answers with its URL |
| CatalogDelegates.RuleSays | catalog.c:1633-1661 | otherwise the longest rule does, its name replaced by its URL |
| CatalogDelegates.DelegateSays | catalog.c:1650-1662 | without either, delegates decide exactly if an entry of the delegate kind has a name that begins the identifier |
| CatalogDelegates.ListFinds | catalog.c:1600-1785 | what a list finds, with kinds and names written out: the exact entry, the longest rule, and where there is a delegate never nothing |
| CatalogDelegates.DelegateDecides | catalog.c:1669-1701 | the loop over delegates gives what the first one finds that finds anything |
| CatalogDelegates.ListDelegates | catalog.c:1662-1706 | so does the list, and it cuts the search if none of its delegates finds anything |
| CatalogDelegates.ListDelegatesInCode | catalog.c:1662-1706 | the same with the depth counters, where they stop nothing |
| CatalogDelegation.ResolveByDelegate | catalog.c:1662-1706 | an identifier that begins with the name of a delegate is resolved through its catalog, for system and public identifiers |
| CatalogEndless.ExecSame | catalog.c:1593-2106 | in catalogs whose lists are loaded, counters change neither whether resolution without limits ends nor how |
| CatalogEndless.EndsShallow | catalog.c:1593-2106 | a resolution that ends without limits never enters a list for a job that is still open, and a list has at most five such jobs: every counter it meets is at most that far above where it was |
| CatalogEndless.StopsExactlyTheEndless | catalog.c:1600-1609 | in loaded catalogs, cyclic or not, whose counters are at most 45, the counters stop exactly the resolutions that would not end without them |
| CatalogAnswers.RunJustified | catalog.c:1593-2106 | with counters or without, a URI is returned only if an entry that was there at the start answers the query with it |
| CatalogAnswers.ResolvedIsJustified | catalog.c:1964-2106 | every URI returned comes from an entry that matches the canonical query, exactly or by a rewriting rule |
| CatalogLoop.LoopLeaks | catalog.c:1793-1805 | a list whose next catalog is itself: an identifier that it does not know leaves its counter at 51, every round leaking once |
| CatalogLoop.LoopIsEndless | catalog.c:1793-1805 | without the counters, such a resolution would not end |
| CatalogLoop.SilenceList | catalog.c:1793-1805 | on such a list a known name is found, one unknown name is looked up, and then the known name is not found |
| HtmlElements.ElementStack.Open | HTMLparser.c:152-180 | push and start event: the stack stays what replaying the events leaves open, and the mode has seen head and body |
| HtmlElements.ElementStack.Close | HTMLparser.c:187-204 | pop and end event of the current element |
| HtmlElements.ElementStack.AutoClose | HTMLparser.c:1406-1422 | closes exactly the maximal run of top elements that the new one closes |
| HtmlElements.ElementStack.AutoCloseOnEnd | HTMLparser.c:1377-1393 | everything is closed |
| HtmlElements.ElementStack.AutoCloseOnClose | HTMLparser.c:1331-1370 | down to the topmost match, or nothing if an element of a higher priority is in the way |
| HtmlElements.ElementStack.CheckImplied | HTMLparser.c:1484-1539 | exactly the implied html, head or body is opened, where it belongs; nothing is closed |
| HtmlElements.ElementStack.StartCharData | HTMLparser.c:1547-1557 | exactly the closing of an open head, if text closes it, and the implied html and body; afterwards the stack is not empty, and the mode has reached the body unless a head is open |
| HtmlElements.ElementStack.ParseStartTag | HTMLparser.c:3799-3841 | misplaced html, head and body tags open nothing and are counted once each; other tags open their element on top of what they imply |
| HtmlElements.ElementStack.CountBodies | HTMLparser.c:3829-3840 | at most one body is ever on the stack |
| HtmlElements.ElementStack.ParseElement | HTMLparser.c:4233-4297 | `/>` and empty elements close the current element, which after a discarded tag is the one around it |
| HtmlElements.ElementStack.DiscardedTagCloses | HTMLparser.c:4233-4297 | on a stack of html and body, `<html/>` opens nothing, closes body, and is counted as discarded |
| HtmlElements.ElementStack.ParseEndTag | HTMLparser.c:4112-4165 | an end tag of a discarded element is only counted; any other leaves the stack alone or cuts it at the topmost match |
| HtmlElements.CutIsSafe | HTMLparser.c:1331-1370 | an end tag never closes an element of a higher priority, and leaves the stack alone exactly if every match is below one |
| HtmlClosing.EndTagCloses | HTMLparser.c:1205-1218 | which open elements keep an end tag from closing its element, by name; without one the element and everything in it is closed |
| HtmlClosing.ImpliedElements | HTMLparser.c:1484-1539 | which elements imply html, head or body, by name |
| HtmlClosing.OpenCellRun | HTMLparser.c:4175-4226 | a whole run without html, head and body tags: the end tag of a table closes its open cell and row |
| HtmlElements.ElementStack.ParseContent | HTMLparser.c:4175-4226 | on every input the stack, events, mode and counters are those of the reference run; the events are well nested, after every one of them html is only at the bottom, head only at depth one, body at most once, and at the end all elements are closed |
| AttrHash.Insert | HTMLparser.c:3729-3756 | a free bucket is always met; an attribute of the name is found exactly if there is one, and otherwise the new index is stored |
| AttrHash.HasFree | HTMLparser.c:3929-3932 | a table of twice the size has a free bucket |
| AttrHash.TableSize | HTMLparser.c:3929-3932 | a power of two of at least twice the number of attributes |
| AttrHash.FirstOnlyIs | HTMLparser.c:3949-3969 | the reference result: every name once, with the value it had first |
| AttrHash.RemoveDuplicates | HTMLparser.c:3923-3971 | the in-place pass leaves exactly the first occurrence of each name, in order and with its own value |

## Left out

- The limits on the length of values and comments, and allocation failure, in the HTML tokenizer.
- HTML5 mode, the fragment entry point, line and column counters, node info, SAX callbacks that stop the parser, and encoding detection or switching in the middle of a document.
- The entity table: any matcher whose answer depends only on the run of letters and digits at hand is admitted (`HtmlBytes.MatcherOk`).
- The element tables of HTML: which element closes which, and which are empty, are parameters, so the results hold for every such table; the priorities of end tags are written out.
- C14N with node sets, exclusive C14N, `xml:base` and inherited `xml:` attributes, and text and attribute escaping; elements carry only their namespace declarations and children.
- xmlSearchNs is taken as the nearest declaration of a prefix, with the prefix xml never found.
- Catalog files are given as entries that exist before they are fetched, one per file and preference; parsing, mutexes, SGML catalogs and the sorting of delegates by length are not modelled: delegates are tried in the order of the list.
- CatalogResolve.XMLResolve: is stated for identifiers that are normal and hold no URN, as its only caller passes them; XMLResolveURI likewise.
- OutputConverter.CharEncOutput: is stated for input that is a prefix of well-formed UTF-8, which is what libxml2 keeps in its buffers; the initialization call and the mapping of error codes are left out.
- OutputConverter.Utf8ToLatin1: says which characters are converted for prefixes of well-formed UTF-8 only, because the code does not look at the top bits of continuation bytes.
- Input is converted from UTF-16 only: for UTF-8 there is no converter, and the copying one in the table of handlers is left out, as are input from ASCII and ISO Latin 1. Whole output calls are modelled for ASCII and ISO Latin 1, and the UTF-16 output converters by themselves. Other converters, iconv and ICU are left out.
- InputConverter.CharEncInput: for raw input longer than one chunk (2^30 - 1 bytes) says only that rejected input is malformed or ends within a character, because the room that the output happens to have decides where the last chunk begins.
- Buffers whose memory was never allocated or was detached, static buffers beyond shrinking, appends from the buffer itself, and allocation failure outside the dictionary.
- The terminator is not counted among the bytes that growing copies.
- Dictionary.Dict.EqualsQName: with an empty prefix, C compares past the terminator of the prefix when the stored string is empty; the model takes that as no match.
- The 32-bit arithmetic of the dictionary hash is modelled with bit vectors; nothing is claimed about its distribution.
