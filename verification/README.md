# Verified model of the boot manager's core

This project models the parts of a small boot manager with a JavaScript interpreter whose
correctness is hardest to see from the code, and proves what they promise for all inputs, all
reachable states and whole runs.

**Page allocator** (`Pages`, `Buddy`, `Donate`, `PoolRuns`, `Bitmaps`, `Lists`, `PageLists`,
`PageManager`). Module Buddy describes the buddy allocator by its free lists alone. It proves
one invariant (aligned, disjoint, listed once, never two free buddies) for every operation, and
from it that allocation is complete, that the free blocks are a function of the free pages, and
that freeing undoes allocating. Class `PageMan` carries the same operations out as the source
does: on circular lists that live inside the free pages, on one bit per buddy pair from which
alone the decision to coalesce is taken, and on the spare counter. `Represents` says that lists,
bits and counter agree with the model, and each method is proved to be the model's operation
and to write nothing but free pages and list heads.

**Block allocator** (`Rows`, `Heap`, `HeapRuns`, `HeapWords`, `BlockAllocator`). A page is a row
of headers, each with the offset of its predecessor, a size and a used flag, ended by a
protector. The heap is the set of rows, the bins and the page manager's lists. Class `Allocator`
works on the memory words; its `malloc` and `free` are proved to be the model's and to leave
every other live payload untouched. Over whole runs no page leaks and the heap depends on the
live blocks only.

**Expression parser** (`Syntax`, `Parse`, `Derivation`, `Productions`, `Statements`, `Printer`,
`Parser`). `Parse` is the
recursive descent as functions, `Derivation` an independent grammar of derivation trees, and the
two are proved equivalent: the parser accepts exactly what can be derived, with the tree of the
derivation. `Productions` writes the standard's productions out, operator by operator, and says
what they do to texts; `Statements` does the same for the semicolon that may be left out.
`Printer` writes any syntax tree with the fewest parentheses, and reading it gives
the tree back. Classes `Lexer` and `Grammar` are the program's own lexer interface and parser,
with the one-token pushback and the two mode flags; a ghost log proves that each lexeme is read
once, under the goal that the grammar prescribes for it.

**UTF-8 and UTF-16** (`Unicode`). Both counting and both writing passes, with the round trip
characterised exactly, and the comparison with RFC 3629 and RFC 2781.

**Numbers** (`Numerals`, `Division`, `NumberText`, `Format`). Shift-and-subtract division, the
layout of decimal numbers as text, read back by an independent reader of decimal literals, and
integer formatting with its reversal in place, read back by the source's own `atoi`.

**Hash map** (`HashTables`, `HashMaps`). Linked chains in memory, refined to buckets, refined to
a finite map over classes of equal keys; the iterator yields every entry once.

**Object properties** (`Objects`). Which calls may change a property, over whole runs, and where
`defineOwnProperty` parts from the standard.

A failed assertion of the source halts the machine. It is modelled as a result of its own
(`Stop`, `None`, `Halt`, a null object), never as a precondition, except where a line under
"Left out" says so.

Where the code and its own documentation disagree, the model follows the code:

- `libs/mem-alloc/pageman.c:52` says that `pageman_create` returns NULL when the first range is
  too small; the code asserts.
- `libs/mem-alloc/pageman.c:159` says that aligning only loses memory. The start is rounded up
  but the length is not shortened by the same amount, so the donated range can end outside the
  caller's range (`Donate.DonationInsideIff`, `Donate.DonationOutside`).
- `libs/js/conversion.c:234-244` uses N where -N is meant. For -6 < N < 0 the text never denotes
  the number, or is written outside the buffer (`NumberText.LayoutDenotesIff`).
- `libs/unicode/convert.c:33` and `libs/unicode/convert.c:37` test `c` where the second unit is
  meant, and the comparisons with 0x7F and 0x7FF are strict. The effects are characterised
  exactly by `Unicode.RoundTripIff` and `Unicode.EncoderIsStandardIff`.
- `libs/js/desc.c:22` tests `get` twice, so a descriptor with only a setter counts as generic. It
  can be stored even on a frozen property (`Objects.SetterOnFrozen`).
- `libs/js/object.c:186` compares an absent `enumerable` as if it were given. An assignment to a
  writable property that is not configurable is therefore refused (`Objects.PutWritesIff`), and
  `Objects.DefineIsStandardIff` states exactly where section 8.12.9 of ECMA-262 is not met.

## Model

| member | source | states |
|---|---|---|
| Pages.BuddyHalves | libs/mem-alloc/pageman.c:34-42 | The buddy of an aligned run is aligned, different and its own buddy's buddy, and the two make up the run of the next level, which starts where getSuper points. |
| Pages.RunSplits | libs/mem-alloc/pageman.c:34-42 | A page lies in the run of level k+1 exactly when it lies in one of its two halves. |
| Pages.PairIndex | libs/mem-alloc/pageman.c:28-32 | Two aligned runs of one level share a pair index exactly when they are equal or buddies. |
| Pages.BitDecidesAlignment | libs/mem-alloc/pageman.c:165-172 | For an offset aligned to level i, the tested bit is clear exactly when it is aligned to level i+1. |
| Bitmaps.Switch | include/data-struct/bitmap.h:20-23 | Flips exactly the addressed bit of the byte array and says whether it was set before. |
| Bitmaps.ToggleIsLocal | include/data-struct/bitmap.h:20-23 | Exclusive or with the mask changes the bit of the mask and no other bit of the byte. |
| Lists.LinkedRing | include/data-struct/list.h:32-37 | Inserting behind the head makes the ring of the nodes one longer at the front, and only touches the head, its first node and the new node. |
| Lists.UnlinkedRing | include/data-struct/list.h:46-49 | Unlinking the i-th node leaves the ring of the other nodes in order. |
| Lists.Memory.ListAddFirst | include/data-struct/list.h:32-37 | The memory afterwards is the memory with the node linked in; nothing else is written. |
| Lists.Memory.ListRemove | include/data-struct/list.h:46-49 | The memory afterwards is the memory with the node's neighbours joined. |
| Lists.Memory.ListIsEmpty | include/data-struct/list.h:28-30 | True exactly when the ring of the head has no nodes. |
| Buddy.FreeAddsBlock | libs/mem-alloc/pageman.c:99-113 | Freeing keeps the whole invariant and makes exactly the pages of the block free, whatever is merged on the way. |
| Buddy.FreeOverflowsIff | libs/mem-alloc/pageman.c:99-113 | The cascade of merges leaves the table of 18 lists exactly when the block completes a free aligned run of 2^18 pages. |
| Buddy.FreeRunIsOneBlock | libs/mem-alloc/pageman.c:99-113 | Coalescing is maximal: every wholly free aligned run lies inside a single listed block. |
| Buddy.AllocTakesBlock | libs/mem-alloc/pageman.c:123-148 | A successful allocation keeps the invariant, returns an aligned run that was free, takes exactly its pages and leaves the smaller lists alone. |
| Buddy.AllocComplete | libs/mem-alloc/pageman.c:123-148 | Allocation returns NULL exactly when no naturally aligned run of 2^k pages is wholly free, and then changes nothing. |
| Buddy.AllocSucceedsIff | libs/mem-alloc/pageman.c:123-148 | Allocation succeeds exactly when some list at the level or above has a block. |
| Buddy.ListedIff | libs/mem-alloc/pageman.c:99-148 | A block is on the list of its level exactly when its run is free and the run of the next level around it is not. |
| Buddy.Canonical | libs/mem-alloc/pageman.c:99-148 | Two states with the same free pages have the same free blocks on every level, whatever their histories. |
| Buddy.FreeUndoesAlloc | libs/mem-alloc/pageman.c:99-148 | Freeing what was just allocated restores every list, order included. |
| Buddy.AllocAfterFree | libs/mem-alloc/pageman.c:99-148 | After a block of a level was freed, a request for that level succeeds. |
| Buddy.AllocIsFirst | libs/mem-alloc/pageman.c:123-148 | The block served is the first one on the list of the smallest level that has any; splitting keeps its lower half. |
| Buddy.FreeIsFirst | libs/mem-alloc/pageman.c:99-113 | A freed block, merged or not, is put in front of the list of the level it reaches; on the way each list only loses the merged buddy, and no other list changes. |
| Donate.FreeCounts | libs/mem-alloc/pageman.c:109 | Freeing raises the number of free pages by the size of the block, which is what the spare counter counts. |
| Donate.AllocCounts | libs/mem-alloc/pageman.c:139 | Allocating lowers the number of free pages by the size of the block. |
| Donate.PiecesTileIff | libs/mem-alloc/pageman.c:164-188 | For every offset and size, the three loops cut the range into pieces that follow each other without gap or overlap, each aligned to its own size and of a level with a list, exactly when the range holds no naturally aligned run of 2^18 pages; otherwise they cut it in order up to a piece of a level without a list. |
| Donate.FreeAllAdds | libs/mem-alloc/pageman.c:158-189 | Freeing the pieces of a range that completes no run of 2^18 pages frees exactly the pages of the range, keeps the invariant and never overflows. |
| Donate.DonationIff | libs/mem-alloc/pageman.c:158-189 | A range of taken pages, of any size, can be donated exactly when no aligned run of 2^18 pages becomes wholly free; then exactly its pages become free and the invariant is kept. |
| Donate.FirstPage | libs/mem-alloc/pageman.c:160 | The first page donated starts at the address or less than a page behind it. |
| Donate.PageCount | libs/mem-alloc/pageman.c:161 | As many pages are donated as fit wholly into the given length. |
| Donate.DonationInsideIff | libs/mem-alloc/pageman.c:160-161 | The range that is donated stays inside the caller's bytes exactly when the start is aligned or the length drops at least as many bytes as the start skips. |
| Donate.DonationOutside | libs/mem-alloc/pageman.c:160-161 | A page-sized range at an unaligned address is donated as the page behind it. |
| PoolRuns.RunConserves | libs/mem-alloc/pageman.c:99-148 | Over every run of allocations and frees no page is lost or gained, and the blocks held stay aligned and disjoint from each other and from the free pages. |
| PoolRuns.GiveFits | libs/mem-alloc/pageman.c:99-113 | A block that was handed out can always be returned without leaving the table of lists. |
| PoolRuns.HistoryForgotten | libs/mem-alloc/pageman.c:99-148 | Two runs after which the same blocks are held leave the same free blocks on every level. |
| PoolRuns.StartWell | libs/mem-alloc/pageman.c:82-86 | Every state in order with nothing handed out is a start for such runs. |
| PageLists.PlaceIff | libs/mem-alloc/pageman.c:28-32 | Two aligned blocks share a bit of the bitmaps exactly when they are of one level and equal or buddies. |
| PageLists.PlaceInLevel | libs/mem-alloc/pageman.c:61-70 | Every block's bit lies inside the bytes laid out for its level. |
| PageLists.BitmapsExact | libs/mem-alloc/pageman.c:61-70 | The bitmaps lie one behind the other, and each has the fewest bytes that give every pair of its level a bit. |
| PageLists.ToggledBitsMatch | libs/mem-alloc/pageman.c:102 | If exactly one of a pair changes hands, flipping the pair's bit keeps every bit equal to the exclusive or of its two buddies' free flags. |
| PageLists.Unlisted | libs/mem-alloc/pageman.c:102-105 | Taking a block off its list in memory, with its bit and the counter, again represents the model without that block. |
| PageLists.Listed | libs/mem-alloc/pageman.c:108-112 | Putting a block in front of its list in memory, with its bit and the counter, again represents the model with it. |
| PageManager.PageMan.SwitchPair | libs/mem-alloc/pageman.c:100-102 | The bit's old value says exactly whether one of the two buddies is free; afterwards only this bit differs. |
| PageManager.PageMan.FreePages | libs/mem-alloc/pageman.c:99-113 | On lists, bits and counter, the recursion does what Buddy.Free does, keeps the representation and writes only free pages and list heads; it answers false exactly when Buddy.Free leaves the table of lists, at any level. |
| PageManager.PageMan.AllocPages | libs/mem-alloc/pageman.c:123-148 | On lists, bits and counter, allocation does what Buddy.Alloc does, fails when it fails, and writes only pages that were free. |
| PageManager.PageMan.FreeBlock | libs/mem-alloc/pageman.c:158-189 | Donating a byte range of any size frees exactly the pages from the next page boundary on, as many as the length holds; it answers false exactly when a run of 2^18 pages would become wholly free. |
| PageManager.PageMan.CutUp | libs/mem-alloc/pageman.c:164-172 | The ascending loop frees the pieces it should and leaves the work of the other two loops; it stops early only where the whole donation fails. |
| PageManager.PageMan.CutDown | libs/mem-alloc/pageman.c:181-188 | The descending loop frees the rest and ends with nothing left, or stops where the whole donation fails. |
| PageManager.PageMan.Create | libs/mem-alloc/pageman.c:55-89 | Exactly those pages of the first range are free that lie wholly behind the record of 228 bytes and the bitmaps, so that nothing of the manager is donated and no page is wasted; there is no manager exactly when they do not fit the range, which halts, or an aligned run of 2^18 pages lies behind them, which overflows the lists. |
| PageManager.PageMan.LayOutBitmaps | libs/mem-alloc/pageman.c:61-70 | The bitmaps of the levels lie one behind the other, each with room for all its bits. |
| Rows.MergeKeeps | libs/mem-alloc/blockalloc.c:81-87 | Merging two used neighbours keeps the page an exact tiling with backward links, at most one free block in a row, and the protector at its end. |
| Rows.SplitKeeps | libs/mem-alloc/blockalloc.c:70-78 | Splitting a used block keeps the same invariant, whenever both parts have a payload. |
| Rows.SetFreeKeeps | libs/mem-alloc/blockalloc.c:56-59 | Marking a block free keeps the invariant when both neighbours are used and the block does not fill its page, which is what the checks before it establish. |
| Rows.NewRowKeeps | libs/mem-alloc/blockalloc.c:194-206 | A fresh page meets the invariant exactly for requests of at most 508 units (4064 bytes), of the 510 that this path admits. |
| Rows.ExactlyOneBlock | libs/mem-alloc/blockalloc.c:48-54 | Every unit of a page lies in exactly one block. |
| Rows.SomeBlockUsed | libs/mem-alloc/blockalloc.c:117-140 | A held page has at least one used block with a payload. |
| Rows.RowCanonical | libs/mem-alloc/blockalloc.c:99-141 | Two pages with the same used blocks are equal, free blocks and backward links included. |
| Heap.MallocMeans | libs/mem-alloc/blockalloc.c:143-208 | malloc keeps the heap invariant and adds exactly one live block, of the rounded size or one unit more; a failing call changes nothing; page ownership only moves. |
| Heap.MallocFailsIff | libs/mem-alloc/blockalloc.c:143-192 | malloc fails exactly when no free block is large enough and no page is free. |
| Heap.SmallestAdequate | libs/mem-alloc/blockalloc.c:156-192 | If some free block is large enough, the one served is of the smallest such size, and no page is opened. |
| Heap.FirstOfBin | libs/mem-alloc/blockalloc.c:158-186 | The block served is the first of its bin; it is handed out whole if it has at most one unit more than the request, and otherwise cut to it. |
| Heap.FreshPageServes | libs/mem-alloc/blockalloc.c:188-207 | If no free block is large enough, the block starts a page that was free, has the requested size, and the rest of the page is one free block. |
| Heap.FreeMeans | libs/mem-alloc/blockalloc.c:99-141 | free keeps the heap invariant and takes away exactly the returned block, merging with both neighbours and returning an empty page. |
| Heap.HeapCanonical | libs/mem-alloc/blockalloc.c:99-208 | Two heaps with the same live blocks hold the same pages with the same headers. |
| HeapRuns.UnitsFor | libs/mem-alloc/blockalloc.c:150-154 | A request is rounded up to the next multiple of 8 bytes and to no more than that, and is never empty. |
| HeapRuns.UnitsBounded | libs/mem-alloc/blockalloc.c:150-156 | The rounded request stays in the range of the bins and of a fresh page exactly for requests of at most 4064 bytes. |
| HeapRuns.PayloadsApart | libs/mem-alloc/blockalloc.c:48-50 | Payloads of different blocks are disjoint, contain no header and stay inside their page, in front of the protector. |
| HeapRuns.RunConserves | libs/mem-alloc/blockalloc.c:99-208 | Over every run of malloc and free, each page stays either free in the page manager or held by the heap. |
| HeapRuns.HistoryForgotten | libs/mem-alloc/blockalloc.c:99-208 | Two runs that end with the same live blocks end with the same headers, bins, held pages and free page blocks. |
| HeapRuns.NoLeak | libs/mem-alloc/blockalloc.c:99-208 | A run that ends with nothing live has returned every page; bins, buddy blocks and spare memory are those of the start. |
| HeapRuns.FreeUndoesMalloc | libs/mem-alloc/blockalloc.c:99-208 | Returning a block right after it was handed out restores the whole structure. |
| BlockAllocator.Allocator.Malloc | libs/mem-alloc/blockalloc.c:143-208 | On memory words, malloc does what the model does, returns the address of the payload or NULL, and leaves every live payload as it was. |
| BlockAllocator.PayloadHolds | libs/mem-alloc/blockalloc.c:150-164 | All the bytes asked for, from the returned address on, lie in the payload of the new live block. |
| BlockAllocator.Allocator.Free | libs/mem-alloc/blockalloc.c:99-141 | On memory words, the recursive free does what the model does, does nothing for NULL, and leaves every other live payload as it was. |
| BlockAllocator.Allocator.MergeAt | libs/mem-alloc/blockalloc.c:81-87 | The header arithmetic in bytes merges the block with its successor and corrects the backward link of the third. |
| BlockAllocator.Allocator.SplitAt | libs/mem-alloc/blockalloc.c:70-78 | The header arithmetic in bytes cuts the block and corrects both backward links. |
| BlockAllocator.Allocator.MarkUsedAt | libs/mem-alloc/blockalloc.c:61-64 | Unlinks the block from the bin of its size and sets its flag. |
| BlockAllocator.Allocator.MarkFreeAt | libs/mem-alloc/blockalloc.c:56-59 | Links the block into the bin that its size word selects, although the flag is still set in it, and clears the flag. |
| BlockAllocator.Allocator.ReturnPage | libs/mem-alloc/blockalloc.c:120-125 | A page whose only block is returned goes back to the page manager as a whole. |
| BlockAllocator.Allocator.OpenPage | libs/mem-alloc/blockalloc.c:188-207 | A fresh page gets a block of the requested size, a free rest in the bin of its size, and the protector; without a page nothing changes. |
| BlockAllocator.Allocator.LayOut | libs/mem-alloc/blockalloc.c:194-204 | The three headers of a fresh page, with the rest's size computed from addresses. |
| BlockAllocator.Allocator.Create | libs/mem-alloc/blockalloc.c:89-97 | The record takes one page from the manager and all bins are empty; without a page the source halts. |
| BlockAllocator.GetPagePow | libs/mem-alloc/blockalloc.c:38-46 | The smallest power of two of pages that holds the size. |
| Derivation.Complete | libs/js/grammar.c:126-482 | Every derivation is parsed to its own tree and leaves exactly the text behind it, at every level of the cascade and before any text that does not continue it. |
| Derivation.Sound | libs/js/grammar.c:126-482 | Whatever the parser accepts has a derivation with the returned tree, and it never stops before a token it could have taken. |
| Derivation.ParserDecides | libs/js/grammar.c:126-482 | At every level the parser accepts a text with a tree and a rest exactly when a derivation says so. |
| Derivation.Unambiguous | libs/js/grammar.c:367-482 | Two derivations of one text have the same tree: binary operators group to the left, assignments to the right, and a bare conditional is no target. |
| Productions.ProducesIff | libs/js/grammar.c:167-482 | The derivations of the parser are those of the productions of section 11 of ECMA-262, written out nonterminal by nonterminal with their operators. |
| Productions.ParserDecidesProductions | libs/js/grammar.c:126-482 | The function of each nonterminal accepts a text with a tree and a rest exactly when a derivation by its productions does, as long as it can be. |
| Productions.TwoOperators | libs/js/grammar.c:367-482 | Of any two binary operators between three operands the one of the tighter row groups first, and operators of one row, the comma included, group to the left. |
| Productions.SumsAndProducts | libs/js/grammar.c:407-408 | 1 + 2 * 3 is 1 + (2 * 3), and 1 * 2 + 3 is (1 * 2) + 3. |
| Productions.OperatorAndConditional | libs/js/grammar.c:439-454 | Every operator but the comma groups first in each part of a conditional; the comma takes the whole conditional. |
| Productions.OperatorAndAssignment | libs/js/grammar.c:456-482 | Assignments group to the right and take whole operators on both sides; the comma takes the whole assignment. |
| Productions.ConditionalAndAssignment | libs/js/grammar.c:439-480 | An assignment in a part of a conditional belongs to that part, and a conditional behind an assignment sign is its value. |
| Productions.UnaryIsRead | libs/js/grammar.c:325-365 | Each of the nine unary operators, in its spelling, binds tighter than every binary operator. |
| Productions.PostfixIsRead | libs/js/grammar.c:302-323 | A postfix operator binds tighter than a unary one, and behind a line terminator it is none. |
| Productions.WordsAreRead | libs/js/grammar.c:105-140 | this, null, true, false, numbers and strings are read as themselves. |
| Productions.OperandsAreRead | libs/js/grammar.c:142-225 | Parentheses leave a tree as it is; a point takes a name as the key and brackets an expression. |
| Printer.Print | libs/js/grammar.c:126-482 | Every tree has a derivation at every level. |
| Printer.PrintIsLeast | libs/js/grammar.c:126-482 | No derivation of the tree at the level has fewer parentheses than the printed one, and with every name behind a point none has a shorter text. |
| Printer.RoundTrip | libs/js/grammar.c:126-482 | Reading a printed tree gives the tree back. |
| Printer.StatementRoundTrip | libs/js/grammar.c:517-525 | A printed tree with a semicolon behind it is read as the statement of that tree, and the rest is left. |
| Statements.StatementIff | libs/js/grammar.c:72-86 | A text is read as a statement exactly when it starts with a derivable expression behind which there is a semicolon, the end of the text, a closing brace, or a line terminator in front of something that neither continues the expression nor is refused. |
| Statements.InsertionRoundTrip | libs/js/grammar.c:80-81 | A printed tree without a semicolon is read as its statement at the end of the text, before a closing brace, and before a line terminator unless the text goes on. |
| Statements.MissingSemicolonStops | libs/js/grammar.c:82-85 | On one line, anything but a semicolon or a closing brace behind the expression stops the program. |
| Parser.Lexer.Next | libs/js/lex.c:606-615 | A token is read once, under the flags of that moment, which are those that the grammar prescribes for its place. |
| Parser.Grammar.Next | libs/js/grammar.c:39-49 | Takes the buffered token or reads one; the position moves by one lexeme and the goal of the next one is known. |
| Parser.Grammar.Pushback | libs/js/grammar.c:51-55 | Puts the token back; at most one token is ever buffered. |
| Parser.Grammar.Lookahead | libs/js/grammar.c:57-61 | Shows the next token under its goal and leaves the text as it was. |
| Parser.Grammar.Expect | libs/js/grammar.c:63-70 | Succeeds exactly on the given punctuator. |
| Parser.Grammar.PrimaryExpr | libs/js/grammar.c:105-158 | Does what Parse.Primary does, reading its first token with regular expressions allowed. |
| Parser.Grammar.MemberExpr | libs/js/grammar.c:167-225 | Does what Parse.Member does; the flag for regular expressions is off again behind it. |
| Parser.Grammar.PropertyName | libs/js/grammar.c:200-204 | The name behind a point is read with keywords off, and they are on again behind it. |
| Parser.Grammar.LeftHandSideExpr | libs/js/grammar.c:261-300 | Does what the cascade does at its lowest level. |
| Parser.Grammar.PostfixExpr | libs/js/grammar.c:302-323 | Does what the cascade does at the postfix level, line terminators included. |
| Parser.Grammar.UnaryExpr | libs/js/grammar.c:325-365 | Does what the cascade does at the unary level. |
| Parser.Grammar.BinaryExpr | libs/js/grammar.c:367-437 | Does what the cascade does at each binary level: a left-associative row of the level's operators. |
| Parser.Grammar.CondExpr | libs/js/grammar.c:439-454 | Does what the cascade does at the conditional level. |
| Parser.Grammar.AssignExpr | libs/js/grammar.c:456-480 | Does what the cascade does at the assignment level. |
| Parser.Grammar.Expression | libs/js/grammar.c:482 | Does what the cascade does at the comma level. |
| Parser.Grammar.ExprStatement | libs/js/grammar.c:517-525 | An expression with its semicolon, written or inserted before a brace or behind a line terminator; stops exactly where the statement is none. |
| Unicode.RoundTripIff | libs/unicode/convert.c:45-110 | Decoding what was encoded gives the UTF-16 string back exactly when every high surrogate is followed by a low one. |
| Unicode.EncodingInjective | libs/unicode/convert.c:81-110 | Two well-formed strings with the same encoding are equal. |
| Unicode.DecoderIsStandard | libs/unicode/convert.c:45-79 | Every text in the UTF-8 of RFC 3629 is decoded to the UTF-16 of RFC 2781. |
| Unicode.EncoderIsStandardIff | libs/unicode/convert.c:81-110 | The encoder accepts every standard UTF-16 text and writes standard UTF-8 exactly when neither U+007F nor U+07FF occurs in it. |
| Unicode.Size8Agrees | libs/unicode/convert.c:27-43 | The counting pass for UTF-8 stops exactly where the conversion does and otherwise returns its length. |
| Unicode.Size16Agrees | libs/unicode/convert.c:7-25 | Wherever the conversion to UTF-16 succeeds, the counting pass returns its length. |
| Unicode.Size16MissesIff | libs/unicode/convert.c:7-79 | The conversion to UTF-16 succeeds exactly when the counting pass does and every sequence lies inside the text with only continuation bytes behind its first byte. |
| Unicode.LeadRanges | libs/unicode/convert.c:11-22 | The ranges of the bytes that lead one, two, three and four bytes and of those that lead none. |
| Unicode.PlaceValues | libs/unicode/convert.c:52-70 | What the decoder computes from two, three and four bytes, shortest form or not, by place values. |
| Unicode.CountMayMissTheEnd | libs/unicode/convert.c:14-18 | A witness: a sequence that is cut off is counted and only stopped by the writing pass. |
| Unicode.CountAsUtf8 | libs/unicode/convert.c:27-43 | The loop counts what Size8 says. |
| Unicode.CountAsUtf16 | libs/unicode/convert.c:7-25 | The loop counts what Size16 says, stepping past the end where the source does. |
| Unicode.ToUtf8 | libs/unicode/convert.c:81-110 | Every write is inside the buffer of the counted size, the final length check holds, and the buffer is the encoding. |
| Unicode.ToUtf16 | libs/unicode/convert.c:45-79 | Every write is inside the buffer of the counted size, the final length check holds, and the buffer is the decoding; it stops exactly on text that cannot be decoded. |
| Division.Div64 | libs/js/conversion.c:19-49 | Quotient and remainder for every 64-bit number and every positive 32-bit divisor, through wrapping arithmetic that never wraps; both loops end. |
| Numerals.ValueOfDigits | libs/js/conversion.c:219-221 | The digits written for a number are worth the number. |
| NumberText.LayoutDenotesIff | libs/js/conversion.c:207-280 | For all S of K digits and all N with at most four exponent digits, the text denotes S * 10^(N-K) exactly when N is not between -6 and 0 (section 9.8.1 of ECMA-262). |
| NumberText.LayoutForm | libs/js/conversion.c:215-275 | Which form is chosen, with the bounds of section 9.8.1 of ECMA-262: digits and zeros for K <= N <= 21, the point behind exactly N digits for 0 < N < K and N <= 21, "0." in front for N = 0, and for N > 21 or N <= -6 one digit, the others behind a point, and the exponent with its sign and no leading zero. |
| NumberText.LayoutMisses | libs/js/conversion.c:234-244 | For -6 < N < 0 no text denotes the number. |
| NumberText.MisplacedForm | libs/js/conversion.c:234-244 | For -6 < N < 0 there is a text exactly when no write leaves the buffer, and then it is digits only. |
| NumberText.ExponentReads | libs/js/conversion.c:90-101 | The exponent's digits, as many as countLen says, read back as the exponent. |
| NumberText.PutDigits | libs/js/conversion.c:219-221 | The loop writes the digits of its number into exactly its slots and leaves the quotient. |
| NumberText.ToText | libs/js/conversion.c:212-280 | Every slot of the buffer is written and holds the layout; null exactly where the source writes outside it. |
| Format.RoundTripIff | libs/lib-format/format.c:25-77 | atoi(itoa(num)) = num for every 32-bit number, every width and all flags, except for a nonzero number padded on the left with spaces. |
| Format.DigitsAreWorth | libs/lib-format/format.c:44-47 | In every radix from 2 to 36 the digits, with any zeros in front, are worth the magnitude. |
| Format.TextLength | libs/lib-format/format.c:54-65 | The output is as long as the width or the natural length, whichever is larger. |
| Format.TextParts | libs/lib-format/format.c:25-66 | The text is sign, prefix, padding, digits and trailing spaces in this order, each as the flags ask, the digits without leading zeros and in the alphabet of the flag. |
| Format.StartFound | libs/lib-format/format.c:48-51 | The start of the reversal, found again from the first character, is the length of sign and prefix. |
| Format.WriteDigits | libs/lib-format/format.c:44-47 | The loop writes the digits last one first, at least one of them. |
| Format.ReverseRange | libs/lib-format/format.c:58-62 | The range is reversed in place and nothing outside it changes. |
| Format.Itoa | libs/lib-format/format.c:25-66 | The buffer holds sign, prefix, padding, digits and trailing spaces as specified, and nothing behind them changes. |
| Format.Atoi | libs/lib-format/format.c:69-77 | Reads an optional sign and the longest run of digits, wrapping around at 32 bits. |
| HashTables.RunRefinesMap | libs/data-struct/hashmap.c:57-107 | After every run of put and remove, a lookup answers with what was last put under an equal key, and the table is in order. |
| HashTables.PutMeans | libs/data-struct/hashmap.c:57-76 | put changes the answer for equal keys and for no others. |
| HashTables.PutShape | libs/data-struct/hashmap.c:57-76 | put under a key that is there replaces its data and nothing else; a new key goes to the end of the chain of its hash taken as unsigned. |
| HashTables.RemoveMeans | libs/data-struct/hashmap.c:92-107 | remove takes away the answer for equal keys and for no others. |
| HashTables.IterationIsExact | libs/data-struct/hashmap.c:122-152 | The entries in chain order have pairwise different keys and are exactly the associations of the map. |
| HashMaps.HashMap.PutKey | libs/data-struct/hashmap.c:57-76 | On linked nodes, put does what the model does, and returns true exactly when the key is new. |
| HashMaps.HashMap.Lookup | libs/data-struct/hashmap.c:78-90 | On linked nodes, get answers as the model does. |
| HashMaps.HashMap.RemoveKey | libs/data-struct/hashmap.c:92-107 | On linked nodes, remove does what the model does and returns the data that was there. |
| HashMaps.HashMap.Walk | libs/data-struct/hashmap.c:58-67 | The walk along a chain ends at the first equal key, with the link that leads to it. |
| HashMaps.Iterator.Next | libs/data-struct/hashmap.c:132-152 | Yields the entries one by one in chain order, and NULL exactly when none is left. |
| Objects.FrozenForever | libs/js/object.c:92-240 | Over every run of put, delete and defineOwnProperty that does not halt, a data property that is neither writable nor configurable stays, with its value, getter and attributes; its setter field is the one of the last call that stores a lone setter on it, or unchanged if there is none. |
| Objects.DefineKeepsFrozen | libs/js/object.c:153-240 | What one defineOwnProperty does to a frozen property: nothing but storing the setter of a descriptor with a setter, no getter, value or writable, the same enumerable and no request to become configurable. |
| Objects.SetterOnFrozen | libs/js/desc.c:18-26 | A witness: a lone setter on a frozen property is stored and answered with true, where step 9 of section 8.12.9 rejects it. |
| Objects.KeysNeverGrow | libs/js/object.c:92-240 | Over every run, an object that is not extensible never gets a new key. |
| Objects.GlobalsConstant | libs/js/global.c:22-40 | NaN, Infinity and undefined keep their values over every run on the global object. |
| Objects.DefineIsStandardIff | libs/js/object.c:153-240 | For an absent, data or accessor property of one kind and every descriptor that section 8.10.5 of ECMA-262 allows, getters and setters included, defineOwnProperty answers as section 8.12.9 does exactly outside a stated condition. |
| Objects.PutWritesIff | libs/js/object.c:92-121 | An assignment to an own data property takes effect exactly when the property is writable and configurable, and otherwise is refused and changes nothing. |
| Objects.PutCreates | libs/js/object.c:92-121 | An assignment to an absent key: with nothing inherited it creates a property with all three attributes true exactly when the object is extensible; inherited data, accessors and throw are spelled out. |
| Objects.PutOnAccessor | libs/js/object.c:56-121 | An assignment to an own accessor is always refused. |
| Objects.CreatedIsOpen | libs/js/object.c:92-147 | What an assignment created can be assigned to again and deleted. |
| Objects.ThrowOnlyHalts | libs/js/object.c:92-240 | With throw every refusal halts, and nothing else depends on it. |
| Objects.PartsMeans | libs/js/object.c:180-230 | Where defineOwnProperty parts from the standard on an existing property: when it halts, when it refuses and when it stores a lone setter. |
| Objects.DeleteRemovesIff | libs/js/object.c:132-147 | delete removes exactly configurable properties and touches no other key. |
| Objects.JsObject.DefineOwnProperty | libs/js/object.c:153-240 | The method, field by field, does what Define says, and a halt changes nothing. |
| Objects.JsObject.PutKey | libs/js/object.c:92-121 | The method does what Put says, with the prototypes it looks up. |
| Objects.JsObject.CanPutKey | libs/js/object.c:56-90 | Decides from the own property, the prototypes and extensibility as CanPut says. |
| Objects.JsObject.DeleteKey | libs/js/object.c:132-147 | The method does what Delete says. |

## Left out

- Pages are indices relative to the manager's base, which is taken to be page-aligned, and
  memory is an array of 8-byte units that hold two words each (the 32-bit layout). "No page" is
  a value of its own, so a donated page at address 0, which the source could not tell from
  NULL, needs no exclusion.
- The records of the two allocators. The list heads and the bins are cells above the pages and
  the bitmaps a byte array, instead of living in the manager's own pages; that those pages are
  never donated is `PageMan.Create`'s contract.
- PageManager.PageMan.FreePages: where the cascade of merges reaches level 18 the source writes
  behind its table of list heads; the model answers false there and says nothing of the memory.
  `Buddy.FreeOverflowsIff` and `Donate.DonationIff` say exactly when that is, and `PoolRuns` and
  `HeapRuns` prove that runs from a start in order never get there.
- BlockAllocator.Allocator.Malloc: requests of at most 4064 bytes; above, the rest of a fresh
  page has no payload left, and `Rows.NewRowKeeps` proves that 4064 bytes is the exact bound.
- Large requests, `allocator_aligned_alloc` (which keep flag bits in the size word),
  `allocator_calloc` and `allocator_realloc`.
- HeapRuns.Step: returning something that is not live is modelled as no operation, because the
  source promises nothing for it.
- Parser.Lexer.Next: reads lexemes, not characters: comments, white space and the spelling of
  numbers and strings are below the model. A lexeme carries the mark whether a line terminator
  precedes it.
- Primary expressions at which the source stops (identifiers, regular expressions, arrays,
  objects, functions, `new`) stop in the model too. The operator `in` is never parsed as one,
  since `noIn` is always true. The lexer starts in strict mode (`libs/js/lex.c:600`), so the words
  reserved in that mode are reserved words in the model as well.
- The bodies of statements other than expression statements.
- Unicode.ToUtf8: the test `c < 0xE000` beside the test of the second unit is left out, since it
  is implied by the branch it stands in.
- The Unicode category table and `unicode_putUtf8`.
- Floating point: number printing starts from the integers S, N and K. `countLen` has at most
  four digits, and the exponent is kept within them.
- NumberText.PutDigits: the digit loops of the source are this one loop, called with different
  offsets; the exponent's own loop divides a 16-bit number directly instead of by `div64`.
- Format.Itoa: the `SPACE` flag and the precision, which the source ignores. That negating the
  smallest 32-bit number and the last step of reading it back overflow is undefined in C; the
  model wraps around.
- The formatted-output directives around `itoa`.
- HashMaps.Iterator.Next: is specified for a map that is not changed during the iteration, and
  not called again after it returned NULL. NULL data, which a caller could not tell from an
  absent key, is a value like any other.
- Objects.JsObject.DefineOwnProperty: properties are values, so that a descriptor object shared
  between two keys is not captured. Attributes are absent, true or false. The object's property
  map is a `map`; that the hash map behaves as one is `HashTables.RunRefinesMap`.
- Accessor calls and prototype chains longer than the lookup follows.
- Port input and output, assembly, the text screen, file systems, program loading: hardware and
  plumbing.
