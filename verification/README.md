# stdplus, verified

A Dafny model of the parts of stdplus that carry loops, state machines and arithmetic, with proofs of
what they are for. `dafny verify dfyconfig.toml` checks everything.

## What is modelled

* **Numbers and addresses as text** (`NumericStr`, `Delimited`, `Ip4`, `Ip6Parse`, `Ip6Grammar`,
  `Ip6Print`, `IpAny`, `Sock`, `Ether`, `Subnet`, over `Text`, `Bits`, `Endian`). Printers are methods that
  write into an array, with the exact text and the exact region they may touch as their contract. Parsers
  are methods proved equal to a specification on the text, and each specification is characterised in
  both directions: which texts are accepted, and as what. The IPv6 printer is proved to write the
  canonical form of sections 4 and 5 of RFC 5952, and the IPv6 parser to accept exactly a grammar of
  written forms; the round trip follows from the two.
* **Subnets** (`Subnet`). Masks, the recursive IPv6 walk, containment, the mask codec.
* **IoUring** (`RingHandlers`, `RingRequests`, `RingFiles`, `IoUring`). State machines for handlers and requests and
  for the file table, with the kernel as arbitrary steps; the class is proved to take their steps. `RingRequests`
  numbers the requests, which the source does not, and shows whose completion calls whom.
* **BasicStrBuf** (`StrBufSpec`, `StrBuf`, `StrBufPool`). The object is an array of bytes in which an inline
  text and the words of a block overlap, next to an allocator of blocks. Its methods are proved against
  operations on abstract stores, those against independent sequences, over all runs; `StrBufPool` shows that
  several such objects in one memory take exactly those steps.
* **Streams** (`Descriptor`, `FdOps`, `Lines`). A descriptor follows an arbitrary script of chunk, would-block,
  end and error results. The loops of `ops.cpp` and `line.cpp` are proved to give results that do not depend
  on the chunking.
* **Handles** (`HandleSpec`, `Handles`, `HandlePool`). Ownership over all runs of moves, copies, resets and
  releases, with drop and reference callbacks that may be any functions, and what data an object is beside; several objects over one pair of callbacks
  are shown to take exactly those steps.

Methods are proved against functions on values, and the lemmas are about those functions. A `-1` stands for
`npos`, and `npos + 1` is 0 as it is in the source. Words are natural numbers, and every wrap, shift and mask is
written out. The host is little-endian with 64-bit pointers.

## Where the code and its description differ

* The IPv6 parser accepts one lone leading colon, and one trailing colon behind the eighth hextet, which section
  2.2 of RFC 4291 does not allow. `Ip6Grammar.In6Exact` says so exactly.
* Decoding a narrow signed type checks its upper bound only; `NumericStr.SignedDecode` states when the value
  survives (with `NumericStr.SignedKeeps`), and `NumericStr.SignedDecodeWraps` gives a text that does not.
* `ToStr<Sock6Addr>::buf_size` does not count both brackets; `Sock.Sock6Fits` states for which addresses and ports
  it is enough, and `Sock.Sock6Overruns` gives one for which it is not. `IntToStr::buf_size` is too small for the
  least value of some types and bases: `NumericStr.ScratchInsideBufSize`, `NumericStr.LeastOverruns`.
* A socket address with a scope does not come back: `Sock.Sock6RoundTrip`.
* `registerFile(-1)` yields a live handle without a used slot, so that the counter no longer counts the handles:
  `RingFiles.RegisteredKeeps`.
* `readAllExact` reports a stream that is too short as would-block: `FdOps.ReadAllExact`.

## Model

| member | source | states |
|---|---|---|
| `NumericStr.UintTextDenotes` | include/stdplus/numeric/str.hpp:83-118 | the printed text is a numeral of the base that denotes the value, exactly max(min_width, number of digits, 1) characters long |
| `NumericStr.DigitsUnique` | include/stdplus/numeric/str.hpp:32-44 | lower-case numerals without a leading zero are the unpadded texts, and no other text is one |
| `NumericStr.DigitAlphabet` | include/stdplus/numeric/str.hpp:32-147 | digits and small letters are printed in the order of their values, digits and letters of either case are read as 0 to 35 in that order, and every other character has the value -1 |
| `NumericStr.CaseInsensitive` | include/stdplus/numeric/str.hpp:134-172 | a text is a numeral, and of what value, without regard to the case of its letters |
| `NumericStr.NumeralForm` | include/stdplus/numeric/str.hpp:134-200 | in lower case, every numeral is the printed text of its value behind some zeros |
| `NumericStr.MultiIntTableAt` | include/stdplus/numeric/str.hpp:46-59 | entry v of the chunk table holds the low digits of v, least significant first |
| `NumericStr.IntStrWrite` | include/stdplus/numeric/str.hpp:61-73 | writing a chunk through the table lays down exactly the low digits of the value and touches nothing else |
| `NumericStr.TakeChunk` | include/stdplus/numeric/str.hpp:91-103 | shift and mask for bases that are powers of two, and division for the others, take the same digits off the value |
| `NumericStr.EmitChunks` | include/stdplus/numeric/str.hpp:89-105 | the do-while loop lays down all digits of the value in exactly the fewest whole chunks |
| `NumericStr.TrimZeros` | include/stdplus/numeric/str.hpp:106-113 | the trimming loop removes the zeros a chunk has put in front of the first digit and no digit of the number, down to the minimum width |
| `NumericStr.UintToStr` | include/stdplus/numeric/str.hpp:83-118 | the chunked, trimmed, padded and reversed output is the positional text of the value; no character outside the stated scratch region changes, and what the last chunk put there besides the text is left as zeros |
| `NumericStr.SignedToStr` | include/stdplus/numeric/str.hpp:120-132 | a negative value is a minus sign and the text of its magnitude |
| `NumericStr.IntToStr` | include/stdplus/numeric/str.hpp:252-261 | the text of a value of any integral type, written through the pointer-sized type |
| `NumericStr.ComputeBufSize` | include/stdplus/numeric/str.hpp:240-250 | the loop computes the digits of the largest value rounded up to whole chunks, and one for the sign |
| `NumericStr.ScratchInsideBufSize` | include/stdplus/numeric/str.hpp:240-261 | for every value of the type, all that printing touches stays inside buf_size if and only if the width leaves room for a minus sign and the value is not the least one with a magnitude that takes more chunks than the largest value |
| `NumericStr.LeastOverruns` | include/stdplus/numeric/str.hpp:240-261 | -128 as an 8-bit type in base 2 needs nine characters where buf_size is eight |
| `NumericStr.StepFits` | include/stdplus/numeric/str.hpp:174-197 | the overflow tests of both branches reject exactly the steps whose mathematical result exceeds the type |
| `NumericStr.ShiftBranch` | include/stdplus/numeric/str.hpp:174-183 | shift-and-or and the shifted limit mean multiply, add and divide for a base that is a power of two |
| `NumericStr.StrToUInt` | include/stdplus/numeric/str.hpp:149-200 | the decoding loop returns the mathematical value of the text, or the error of the first offending character from the left |
| `NumericStr.UintOfOk` | include/stdplus/numeric/str.hpp:149-200 | decoding succeeds if and only if the text is not empty, every character is a digit below the base, and the value fits the type |
| `NumericStr.UintOfNumeral` | include/stdplus/numeric/str.hpp:149-200 | on a numeral only the mathematical value decides between success and overflow |
| `NumericStr.UintKind` | include/stdplus/numeric/str.hpp:149-200 | overflow if and only if the digits in front of the first character that is none spell too much, otherwise invalid if there is such a character or no text |
| `NumericStr.StrToUInt0` | include/stdplus/numeric/str.hpp:202-214 | base 0 reads hexadecimal behind 0x and decimal otherwise |
| `NumericStr.BaseZero` | include/stdplus/numeric/str.hpp:202-214 | with base 0 a text behind 0x reads as in base 16, and one without as in base 10 |
| `NumericStr.StrToInt` | include/stdplus/numeric/str.hpp:216-287 | the sign, the range check of the widened type, the range check of the type and the narrowing conversion, in that order |
| `NumericStr.UnsignedDecode` | include/stdplus/numeric/str.hpp:202-287 | for every text and base, 0 among them: an unsigned decoder accepts exactly the numerals that fit the type |
| `NumericStr.SignedDecode` | include/stdplus/numeric/str.hpp:216-287 | for every text and base, 0 among them: a signed decoder accepts it if and only if it is a numeral with or without a sign, up to the largest value without and up to that of the widened type with one, and returns the converted value |
| `NumericStr.NarrowIs` | include/stdplus/numeric/str.hpp:281-285 | the conversion to a type gives the value of that type that differs by whole turns of its width |
| `NumericStr.SignedKeeps` | include/stdplus/numeric/str.hpp:281-285 | the converted value is the one spelled if and only if the type can hold it, which nothing checks below zero |
| `NumericStr.SignedDecodeWraps` | include/stdplus/numeric/str.hpp:281-285 | -200 is printed as such, and its text is accepted for an 8-bit signed type and comes back as 56 |
| `NumericStr.IntRoundTrip` | include/stdplus/numeric/str.hpp:234-287 | decoding an encoded value gives it back, for every type, base and min_width, and through base 0 for decimal text |
| `Endian.Swap32Bytes` | include/stdplus/numeric/endian.hpp:33-43 | swapping a word reverses its bytes in memory |
| `Endian.Swap16Involution` | include/stdplus/numeric/endian.hpp:21-31 | swapping twice is the identity on 16 bits |
| `Endian.Swap32Involution` | include/stdplus/numeric/endian.hpp:33-43 | swapping twice is the identity on 32 bits |
| `Delimited.ParseAllDenotes` | include/stdplus/net/addr/ip.hpp:122-133 | decoding pieces in order succeeds if and only if every piece is a numeral of the base that fits, and gives their values |
| `Delimited.OctetsExact` | include/stdplus/net/addr/ip.hpp:114-136 | exactly n pieces, none empty, each a numeral that is at most 255: accepted if and only if so |
| `Delimited.OctetsRoundTrip` | include/stdplus/net/addr/ip.hpp:114-158 | joined octet texts decode to the octets |
| `Ip4.In4FromStr` | include/stdplus/net/addr/ip.hpp:114-136 | the find, shift-or and remove-prefix loop computes the parse of the text split at its dots |
| `Ip4.OrOctet` | include/stdplus/net/addr/ip.hpp:121-134 | shifting by eight and or-ing in an octet appends it to the number |
| `Ip4.OctetsInMemory` | include/stdplus/net/addr/ip.hpp:46-75 | the octets lie in memory as they are written, and the word on the host has the first one on top |
| `Ip4.In4ToStr` | include/stdplus/net/addr/ip.hpp:138-158 | the loop writes the dotted quad of the address inside its buffer and changes nothing else |
| `Ip4.In4Exact` | include/stdplus/net/addr/ip.hpp:114-136 | a text is accepted if and only if it is four dot-separated decimal octets, and the address is the one they spell |
| `Ip4.In4RoundTrip` | include/stdplus/net/addr/ip.hpp:114-158 | parsing the printed address gives it back, for every address |
| `Ip4.In4TextChars` | include/stdplus/net/addr/ip.hpp:138-158 | a dotted quad holds digits and dots only |
| `Ip6Parse.HextetInMemory` | include/stdplus/net/addr/ip.hpp:250-307 | the high byte of a hextet lies in memory before the low one |
| `Ip6Parse.In6FromStr` | include/stdplus/net/addr/ip.hpp:250-282 | the loop from the left, with its two exits and its dotted-quad exit, refines the scan; no index leaves the eight hextets |
| `Ip6Parse.In6TailFromStr` | include/stdplus/net/addr/ip.hpp:283-305 | everything behind the double colon: the extra separator, the dotted quad at the end, the loop from the right, the leftover |
| `Ip6Parse.In6RightFromStr` | include/stdplus/net/addr/ip.hpp:295-305 | the loop from the right fills hextets from the back and never reaches the last one filled from the left |
| `Ip6Grammar.ScanSound` | include/stdplus/net/addr/ip.hpp:258-306 | an accepted text has one of the written forms: eight hextets, six and a dotted quad, or two sides of a double colon with a gap of zeros between them |
| `Ip6Grammar.ScanComplete` | include/stdplus/net/addr/ip.hpp:258-306 | every text of such a form is accepted, with the hextets it spells |
| `Ip6Grammar.In6Exact` | include/stdplus/net/addr/ip.hpp:250-307 | the parser accepts a text as an address if and only if a form spells it with the hextets of that address, up to one leading and one trailing colon |
| `Ip6Print.LongestRunExists` | include/stdplus/net/addr/ip.hpp:330-355 | an address with a zero hextet has a first longest run of zeros |
| `Ip6Print.LongestRunUnique` | include/stdplus/net/addr/ip.hpp:330-355 | and only one |
| `Ip6Print.Rfc5952Unique` | include/stdplus/net/addr/ip.hpp:309-376 | an address has exactly one canonical text (sections 4 and 5 of RFC 5952) |
| `Ip6Print.HexText` | include/stdplus/net/addr/ip.hpp:313-371 | a hextet is one to four lower-case digits without a leading zero (sections 4.1 and 4.3) |
| `Ip6Print.FindSkip` | include/stdplus/net/addr/ip.hpp:330-355 | the scan returns the first longest run of zero hextets (section 4.2.3) |
| `Ip6Print.MappedToStr` | include/stdplus/net/addr/ip.hpp:320-328 | a mapped address is the prefix and a dotted quad (section 5) |
| `Ip6Print.HextetsToStr` | include/stdplus/net/addr/ip.hpp:356-374 | the printing loop writes the shortened text for a run of two or more and the full text otherwise |
| `Ip6Print.In6ToStr` | include/stdplus/net/addr/ip.hpp:309-376 | for every address the printer writes the canonical text of RFC 5952 inside its buffer and changes nothing else |
| `Ip6Print.CanonicalForm` | include/stdplus/net/addr/ip.hpp:250-376 | the canonical text has a form that spells the address |
| `Ip6Print.In6RoundTrip` | include/stdplus/net/addr/ip.hpp:250-376 | parsing the printed text gives the same address, for every address: mapped, shortened at the start, in the middle or at the end, or in full |
| `Ip6Print.Rfc5952Length` | include/stdplus/net/addr/ip.hpp:314-315 | a canonical text has at most 39 characters |
| `IpAny.AnyFromStr` | include/stdplus/net/addr/ip.hpp:407-419 | a colon anywhere decides for IPv6 |
| `IpAny.AnyExact` | include/stdplus/net/addr/ip.hpp:407-419 | a text is accepted as an address if and only if the parser of the family of that address accepts it, so the colon never decides against a good text |
| `IpAny.AnyToStr` | include/stdplus/net/addr/ip.hpp:421-434 | the text of whichever address it is, inside the larger of the two buffers |
| `IpAny.AnyTextChars` | include/stdplus/net/addr/ip.hpp:421-434 | which characters a printed address can hold, and that a colon tells the families apart |
| `IpAny.AnyRoundTrip` | include/stdplus/net/addr/ip.hpp:407-434 | parsing a printed address gives back the address and its family |
| `Sock.Sock4FromStr` | include/stdplus/net/addr/sock.hpp:441-455 | the address before the last colon and the 16-bit decimal port behind it |
| `Sock.Sock6FromStr` | include/stdplus/net/addr/sock.hpp:476-495 | brackets around the address before the last colon, the port behind it, scope 0 |
| `Sock.SockInFromStr` | include/stdplus/net/addr/sock.hpp:553-565 | an opening bracket decides for IPv6 |
| `Sock.Sock4Exact` | include/stdplus/net/addr/sock.hpp:441-455 | accepted if and only if it is an IPv4 text, a colon, and a decimal numeral of at most 65535 without a colon |
| `Sock.Sock6Exact` | include/stdplus/net/addr/sock.hpp:476-495 | accepted if and only if it is an IPv6 text in brackets, a colon and such a numeral; the scope is 0 |
| `Sock.SockInExact` | include/stdplus/net/addr/sock.hpp:553-565 | either family is accepted if and only if its own parser accepts the text |
| `Sock.Sock4ToStr` | include/stdplus/net/addr/sock.hpp:457-474 | address, colon and port, inside buf_size |
| `Sock.Sock6ToStr` | include/stdplus/net/addr/sock.hpp:497-516 | bracketed address, colon and port, inside the declared buf_size unless the address is overlong; then the character behind it is written |
| `Sock.SockInToStr` | include/stdplus/net/addr/sock.hpp:567-580 | the text of whichever address it is, inside buf_size under the same condition |
| `Sock.Sock4RoundTrip` | include/stdplus/net/addr/sock.hpp:441-474 | parsing a printed IPv4 socket address gives it back |
| `Sock.Sock6RoundTrip` | include/stdplus/net/addr/sock.hpp:476-516 | parsing a printed IPv6 socket address gives it back if and only if its scope is 0 |
| `Sock.SockInRoundTrip` | include/stdplus/net/addr/sock.hpp:553-580 | the family comes back with the address |
| `Sock.LongText` | include/stdplus/net/addr/ip.hpp:309-376 | a canonical text has 38 characters or more if and only if no hextet has less than three digits and at most one has three |
| `Sock.Sock6Fits` | include/stdplus/net/addr/sock.hpp:503-515 | for every address and port, all that printing touches lies inside the declared buf_size if and only if it is not such an address with a port of five digits |
| `Sock.Sock6Overruns` | include/stdplus/net/addr/sock.hpp:503-515 | a 38-character address whose text fits the buffer exactly and whose port printer touches one character more |
| `Ether.EtherFromStr` | include/stdplus/net/addr/ether.hpp:72-103 | both branches compute the parse of the text |
| `Ether.BareFromStr` | include/stdplus/net/addr/ether.hpp:80-86 | the loop over pairs decodes the twelve bare digits |
| `Ether.WriteColons` | include/stdplus/net/addr/ether.hpp:59-62 | colons stand at every third place and nowhere else |
| `Ether.EtherToStr` | include/stdplus/net/addr/ether.hpp:48-70 | colons first and digits between them make the six-pair text |
| `Ether.EtherExact` | include/stdplus/net/addr/ether.hpp:72-103 | accepted if and only if it is twelve characters without a colon of which every two from the left, or six colon-separated parts of which every one, is a hexadecimal octet, and the octets are those in that order |
| `Ether.BareRoundTrip` | include/stdplus/net/addr/ether.hpp:78-88 | the six pairs of an address written without colons are parsed as that address |
| `Ether.EtherRoundTrip` | include/stdplus/net/addr/ether.hpp:48-103 | parsing the printed address gives it back |
| `Subnet.MaskValue` | include/stdplus/net/addr/subnet.hpp:18-27 | the mask of a prefix, for every value that the undefined shift may yield at prefix 0 |
| `Subnet.MaskWord` | include/stdplus/net/addr/subnet.hpp:29-32 | masking an address word keeps the first pfx bits of the number and clears the others |
| `Subnet.Subnet6Words` | include/stdplus/net/addr/subnet.hpp:34-44 | the recursion masks every word of an IPv6 address by its part of the prefix |
| `Subnet.ContainsMeansPrefix` | include/stdplus/net/addr/subnet.hpp:52-67 | contains holds if and only if the families are the same and the first pfx bits of both addresses agree |
| `Subnet.ShorterContainsMore` | include/stdplus/net/addr/subnet.hpp:115-145 | a shorter prefix contains whatever a longer one does |
| `Subnet.NetworkIsLeast` | include/stdplus/net/addr/subnet.hpp:115-118 | the network address is in the subnet, is its least member, and is its own network |
| `Subnet.MaskOfPfx` | include/stdplus/net/addr/subnet.hpp:131-145 | the prefix of a mask made from a prefix comes back |
| `Subnet.MaskExact` | include/stdplus/net/addr/subnet.hpp:131-145 | a word is accepted as a mask if and only if it is made from a prefix of 0 to 32, which comes back |
| `Subnet.SubFromStr` | include/stdplus/net/addr/subnet.hpp:240-254 | address, last slash, 8-bit decimal prefix, and the range check of the constructor: what is accepted is a valid subnet of the family |
| `Subnet.SubExact` | include/stdplus/net/addr/subnet.hpp:92-254 | accepted if and only if it is a text of an address of the family, a slash, and a decimal numeral without a slash that is at most 32 or 128, by the family of the address |
| `Subnet.SubToStr` | include/stdplus/net/addr/subnet.hpp:256-272 | the text of a subnet inside the buffer of its own type: 21, 44 or 44 characters |
| `Subnet.SubRoundTrip` | include/stdplus/net/addr/subnet.hpp:240-272 | parsing a printed subnet gives it back, as its own family or as either |
| `Subnet.FamiliesApart` | include/stdplus/net/addr/subnet.hpp:213-254 | a subnet contains no address of the other family, and its text is rejected as a subnet of that family |
| `RingHandlers.RemovedOnce` | src/io_uring.cpp:172-177 | swap and pop removes one occurrence of the handler and keeps all others |
| `RingHandlers.DroppedMoves` | src/io_uring.cpp:166-179 | dropHandler moves one registration from the list to the calls and touches nothing else |
| `RingHandlers.HandlerSetKeeps` | src/io_uring.cpp:91-106 | setHandler keeps the invariant, on replacement, removal and repetition of a handler |
| `RingHandlers.CompletedKeeps` | src/io_uring.cpp:114-128 | a completion carries the user data of its request, and the invariant goes on |
| `RingHandlers.ProcessedKeeps` | src/io_uring.cpp:119-128 | process keeps the invariant and leaves no completion unseen |
| `RingHandlers.ProcessedCalls` | src/io_uring.cpp:119-128 | process makes exactly the calls the completions ask for, in their order, and leaves pending requests alone |
| `RingHandlers.RunKeeps` | src/io_uring.cpp:34-128 | over every run the handler list is exactly the non-null user data of the requests that have not come back, so dropHandler always finds its handler |
| `RingHandlers.EachCalledOnce` | src/io_uring.cpp:34-179 | over every run that ends with the destructor each registration has had exactly one call: by completion, by replacement or by the destructor |
| `RingRequests.SetCarries` | src/io_uring.cpp:91-106 | setHandler on one request puts the handler on that request, leaves all others theirs, and calls the one replaced there |
| `RingRequests.ProcessCarries` | src/io_uring.cpp:119-128 | process calls, for every completed request in order, the handler last set on that request, with its own result |
| `RingRequests.RunCarries` | src/io_uring.cpp:34-128 | over every run, requests being told apart by number and not by user data: each holds the handler last set on it through submission and completion, and the calls made are exactly those due to the requests completed, replaced and cancelled |
| `RingFiles.FileSetCounts` | src/io_uring.cpp:181-192 | the counter follows the table through setFile, whatever the old and the new entry |
| `RingFiles.ReservedKeeps` | src/io_uring.cpp:54-64 | reserving keeps table, counter, kernel and handles in agreement, keeps all entries, and grows the table to exactly the room asked for, seven at least, if it is smaller |
| `RingFiles.RegisteredTable` | src/io_uring.cpp:66-84 | the first free slot gets the descriptor, all other entries stay, and the table grows to twice its size and one, seven at least, if and only if no slot is free |
| `RingFiles.RegisteredKeeps` | src/io_uring.cpp:66-84 | registering keeps them in agreement if and only if the descriptor is not -1, and takes the first free slot |
| `RingFiles.DroppedKeeps` | src/io_uring.cpp:49-52 | dropping a handle frees its slot and no other, and keeps the agreement |
| `RingFiles.RunKeeps` | src/io_uring.cpp:49-84 | over every run the counter is the number of used slots and of live handles, live handles hold distinct slots with their own descriptors, and the kernel has the same table |
| `RingFiles.NoGrowth` | src/io_uring.cpp:66-84 | as long as registrations fit the free slots the table keeps its size |
| `RingFiles.ReserveHolds` | src/io_uring.cpp:54-84 | after reserving n slots the next n registrations do not grow the table, whatever is dropped in between |
| `IoUring.IoUring.SetHandler` | src/io_uring.cpp:91-106 | the request at this index gets the handler and no other changes, the one replaced is called with the cancellation result, and the method takes the step of the handler state machine |
| `IoUring.IoUring.DropHandler` | src/io_uring.cpp:166-179 | find, swap with the back, pop and call refine the removal |
| `IoUring.IoUring.CancelHandler` | src/io_uring.cpp:108-117 | a request without a handler of its own, submitted behind all others, so that none is left unsubmitted |
| `IoUring.IoUring.Process` | src/io_uring.cpp:119-128 | no completion is left, and the calls grow by what the completions ask for, in order |
| `IoUring.IoUring.Destroy` | src/io_uring.cpp:34-43 | every handler left is called once with the cancellation result, in the order of the list |
| `IoUring.IoUring.SetFile` | src/io_uring.cpp:181-192 | table and counter as in the file state machine |
| `IoUring.IoUring.UpdateFile` | src/io_uring.cpp:194-199 | the same, and the kernel's entry |
| `IoUring.IoUring.ReserveFiles` | src/io_uring.cpp:54-64 | refines the reserving step |
| `IoUring.IoUring.RegisterFile` | src/io_uring.cpp:66-84 | the slot search and the growing branch refine the registering step |
| `IoUring.IoUring.DropHandle` | src/io_uring.cpp:45-52 | refines the dropping step |
| `StrBufSpec.NextIsIndependent` | include/stdplus/str/buf.hpp:156-365 | one operation does to the texts of all buffers what it does to independent sequences; a moved-from buffer is empty |
| `StrBufSpec.NextKeeps` | include/stdplus/str/buf.hpp:156-365 | inline texts fit, dynamic capacities exceed the object, every block has one owner of its capacity, through every operation |
| `StrBufSpec.RunKeeps` | include/stdplus/str/buf.hpp:156-365 | over every run the buffers are independent sequences and the blocks out are exactly those owned, one each: none leaks or is freed twice |
| `StrBufSpec.NoLeak` | include/stdplus/str/buf.hpp:279-285 | when every buffer has been destroyed no block is out |
| `StrBufSpec.GrowthIsLinear` | include/stdplus/str/buf.hpp:297-331 | over every run of append, shrink and clear, growth copies at most three times the longest length, and a capacity is at most one and a half times it |
| `StrBufPool.Replay` | include/stdplus/str/buf.hpp:297-365 | on an object in memory the characters that growth really copies are those counted, over every such run |
| `StrBuf.LengthStored` | include/stdplus/str/buf.hpp:75-92 | a length word with the tag makes the object dynamic, whatever the length, because its top bit is the top bit of the last byte |
| `StrBuf.TaggedLength` | include/stdplus/str/buf.hpp:75-92 | an object whose last byte has its top bit set has a tagged length word, and masking gives the length |
| `StrBuf.StrBuf.SetDyn` | include/stdplus/str/buf.hpp:306-313 | pointer, capacity and length are stored as words and read back from the bytes |
| `StrBuf.StrBuf.SetInlLen` | include/stdplus/str/buf.hpp:99-102 | an inline length leaves the text alone and the object inline |
| `StrBuf.StrBuf.Append` | include/stdplus/str/buf.hpp:297-336 | in place, inline to block, within a block and to a larger block: text, capacity, owner, allocator, and characters copied by growth |
| `StrBuf.StrBuf.Shrink` | include/stdplus/str/buf.hpp:343-353 | the length goes down in the tagged word or in the byte, the text keeps its front |
| `StrBuf.StrBuf.Clear` | include/stdplus/str/buf.hpp:355-365 | empty, and a block is kept |
| `StrBuf.StrBuf.InlCopy` | include/stdplus/str/buf.hpp:156-172 | an inline text is copied into the object, or into the block of a dynamic target |
| `StrBuf.StrBuf.Move` | include/stdplus/str/buf.hpp:174-192 | the four combinations of a move; the source ends empty and owns nothing |
| `StrBuf.StrBuf.Copy` | include/stdplus/str/buf.hpp:194-230 | the four combinations of a copy; the source is unchanged |
| `StrBuf.StrBuf.CopyAssign` | include/stdplus/str/buf.hpp:265-277 | copy assignment, also to itself |
| `StrBuf.StrBuf.MoveAssign` | include/stdplus/str/buf.hpp:251-263 | move assignment, also to itself |
| `StrBuf.StrBuf.Destroy` | include/stdplus/str/buf.hpp:279-285 | the block, if any, is given back, and nothing else is touched |
| `StrBufPool.OneChanged` | include/stdplus/str/buf.hpp:156-230 | an operation on one object changes that object's store and the allocator, and no other object |
| `StrBufPool.TwoChanged` | include/stdplus/str/buf.hpp:174-192 | a move changes the two objects it names and no other |
| `StrBufPool.Pool.Append` | include/stdplus/str/buf.hpp:297-336 | on objects in memory an append is the step of the abstract machine |
| `StrBufPool.Pool.CopyAssign` | include/stdplus/str/buf.hpp:265-277 | likewise copy assignment |
| `StrBufPool.Pool.MoveAssign` | include/stdplus/str/buf.hpp:251-263 | likewise move assignment |
| `StrBufPool.Pool.CopyConstruct` | include/stdplus/str/buf.hpp:243-249 | likewise the copy constructor |
| `StrBufPool.Pool.MoveConstruct` | include/stdplus/str/buf.hpp:237-241 | likewise the move constructor |
| `StrBufPool.Pool.Destroy` | include/stdplus/str/buf.hpp:279-285 | likewise the destructor |
| `Descriptor.Fd.Op` | src/fd/impl.cpp:20-49 | one call: bytes from the front of the stream, an empty result for would-block or an empty request, Eof and errors as exceptions |
| `Descriptor.StopsStep` | src/fd/impl.cpp:20-36 | after calls that were all ready and all moved something, a call that moves nothing ends a loop with the exception of its own step |
| `Descriptor.StopsUnique` | src/fd/impl.cpp:20-36 | where a loop has got to determines what it ended with: a would-block or an error on a drained stream is never the end of the stream, nor the other way round |
| `Descriptor.StopsMeans` | src/fd/impl.cpp:20-36 | without would-block and errors a loop can only end with Eof, and without early ends only when the stream has been read |
| `FdOps.ProgressStep` | src/fd/ops.cpp:21-31 | one call more on the rest of the buffer extends what has been moved, without gap or overlap |
| `FdOps.ReadyOutcome` | src/fd/impl.cpp:20-36 | a descriptor that is always ready moves something unless the stream is at its end |
| `FdOps.OpExact` | src/fd/ops.cpp:14-42 | all of the buffer, or nothing with the first call's exception, or Incomplete if and only if a part has been moved; the loop ends at the first step of the script that is not ready |
| `FdOps.OpAligned` | src/fd/ops.cpp:78-108 | returns at the first call after which a multiple of align has been moved; Incomplete if and only if a part of one has; any other exception means nothing was moved |
| `FdOps.RoundUpIs` | include-fd/stdplus/fd/ops.hpp:63-67 | the resize callback rounds up to whole elements, and is exact if and only if the request is |
| `FdOps.Container.Resize` | include-fd/stdplus/fd/ops.hpp:62-68 | the container has room for the request in whole elements, keeps its front, and records the request with what had been read by then |
| `FdOps.Fill` | src/fd/ops.cpp:135-170 | both loops of readAll: what has been read is the front of the stream, up to the first step that moved nothing, and every request the container was given stays within total + max(256, min(65536, 2 * total)) of what had been read by then |
| `FdOps.ReadAllInto` | src/fd/ops.cpp:135-181 | the same with the final check: the container holds the stream, or the exception of that step, or Incomplete exactly on a part of an element; every request within the bound |
| `FdOps.ReadAll` | include-fd/stdplus/fd/ops.hpp:58-70 | for every chunking: what was read up to the first step that moved nothing, as a result at Eof, as that step's exception otherwise, and as Incomplete exactly on a part of an element; the whole stream if every step is ready |
| `FdOps.ReadAllFixed` | src/fd/ops.cpp:183-226 | the same into a buffer, with value_too_large when there is more than fits, and then one byte lost to the probe |
| `FdOps.ReadAllExact` | include-fd/stdplus/fd/ops.hpp:129-134 | for every script succeeds if and only if the stream ends with the buffer full, and otherwise throws what ended it, or would-block for an early end; for scripts that are always ready if and only if the stream is as long as the buffer |
| `FdOps.Read` | include-fd/stdplus/fd/ops.hpp:43-51 | the number of whole elements filled |
| `FdOps.OneCall` | src/fd/ops.cpp:78-108 | for elements of one byte an aligned operation is one call |
| `Lines.LineTaken` | src/fd/line.cpp:43-54 | taking up to the first newline completes exactly one line and keeps the rest buffered |
| `Lines.LastTaken` | src/fd/line.cpp:36-40 | at the end of the stream the lines returned are the split of everything delivered, the last piece possibly empty |
| `Lines.LineReader.ReadLine` | src/fd/line.cpp:14-60 | lines returned with their newlines, the current line and the buffered rest are what was delivered, at every return; a null result, an error and the last line each at the first step of the script that is not ready; Eof if and only if the last line has been returned before |
| `Lines.AllLines` | src/fd/line.cpp:14-60 | for every chunking, would-block and error script, the non-null results until Eof are exactly the newline split of the stream |
| `HandleSpec.ResetBalance` | include/stdplus/handle/managed.hpp:157-178 | what a reset takes in is held, and what was held is dropped, once |
| `HandleSpec.RefBalance` | include/stdplus/handle/copyable.hpp:109-137 | the same for a reset that makes a reference first |
| `HandleSpec.NextBalance` | include/stdplus/handle/managed.hpp:66-94 | no operation loses or duplicates an object |
| `HandleSpec.RunConserves` | include/stdplus/handle/managed.hpp:66-203 | over every run, objects taken in and references made are those held, released or dropped |
| `HandleSpec.AllAccounted` | include/stdplus/handle/managed.hpp:88-94 | when no handle is left each object has been released or dropped exactly once for each time it was owned |
| `HandleSpec.DropsArePaired` | include/stdplus/handle/managed.hpp:226-233 | an operation that replaces an object runs one drop, on that object, with the data beside it at that time; no other operation drops |
| `HandleSpec.MovedTogether` | include/stdplus/handle/managed.hpp:66-86 | a move, by constructor or assignment, brings object and data of the other handle, and leaves it empty with its data |
| `HandleSpec.CopiedTogether` | include/stdplus/handle/copyable.hpp:71-99 | a copy, by constructor or assignment, is what the reference callback makes of the object and the data of the other handle |
| `HandleSpec.RunTogether` | include/stdplus/handle/managed.hpp:66-233 | over every run with callbacks that leave the data alone, each object held or dropped is with the data under which it was taken in or referenced, through all moves and copies |
| `HandlePool.Pool.Own` | include/stdplus/handle/managed.hpp:46-61 | on objects with one log, a constructor is the step of the abstract machine |
| `HandlePool.Pool.Refer` | include/stdplus/handle/copyable.hpp:31-53 | likewise the constructor that makes a reference |
| `HandlePool.Pool.MoveConstruct` | include/stdplus/handle/managed.hpp:66-72 | likewise the move constructor |
| `HandlePool.Pool.CopyConstruct` | include/stdplus/handle/copyable.hpp:71-79 | likewise the copy constructor |
| `HandlePool.Pool.MoveAssign` | include/stdplus/handle/managed.hpp:74-86 | likewise move assignment, also to itself; HandleSpec.MovedTogether says what comes over |
| `HandlePool.Pool.CopyAssign` | include/stdplus/handle/copyable.hpp:86-99 | likewise copy assignment, also to itself |
| `HandlePool.Pool.Reset` | include/stdplus/handle/managed.hpp:157-178 | likewise a reset |
| `HandlePool.Pool.ResetCopy` | include/stdplus/handle/copyable.hpp:109-128 | likewise a reset that makes a reference |
| `HandlePool.Pool.Release` | include/stdplus/handle/managed.hpp:186-203 | likewise a release |
| `HandlePool.Pool.Destroy` | include/stdplus/handle/managed.hpp:88-94 | likewise the destructor |
| `Handles.HandleF.MaybeDrop` | include/stdplus/handle/managed.hpp:226-233 | the callback runs if and only if there is an object, with the data of this handle |
| `Handles.HandleF.Reset` | include/stdplus/handle/managed.hpp:157-178 | drop, then own the new value |
| `Handles.HandleF.MoveFrom` | include/stdplus/handle/managed.hpp:66-72 | data and object come over, the source is empty |
| `Handles.HandleF.MoveAssign` | include/stdplus/handle/managed.hpp:74-86 | the old object is dropped with the old data, object and data of the other handle come over, and that one is empty; nothing happens on self-assignment |
| `Handles.HandleF.Release` | include/stdplus/handle/managed.hpp:186-203 | the object goes to the caller and is not dropped |
| `Handles.HandleF.Destroy` | include/stdplus/handle/managed.hpp:88-94 | the destructor drops what is held |
| `Handles.HandleF.ResetCopy` | include/stdplus/handle/copyable.hpp:109-128 | the reference is made before the old object is dropped |
| `Handles.HandleF.CopyFrom` | include/stdplus/handle/copyable.hpp:71-79 | a reference to the object of the other handle, made with a copy of its data |
| `Handles.HandleF.CopyAssign` | include/stdplus/handle/copyable.hpp:86-99 | the old object is dropped with the old data, then what the reference callback makes of object and data of the other handle is held |

## Left out

- System calls, liburing, mmap, signals, formatting glue and exception texts: foreign code or plumbing. Only the kind of an exception is kept.
- Constant-evaluation branches, literal operators, `wchar_t` variants, big-endian layout, stateful allocators.
- Characters above 127: the digit table is indexed by a plain `char` in the source.
- Allocation failure, and kernel registration calls that fail.
- Handlers that call back into the ring, multishot completions, and drop or reference callbacks that throw. A fresh submission entry carries null user data.
- `wait`, `getEventFd`, `processEvents` and `chronoToKTS`: calls into the kernel.
- `SockUAddr` and `SockAnyAddr`: the buffer termination of unix socket paths is not part of this model.
- `recvfrom`, `sendto`, `accept` and the other forwarders: single calls without a loop. `recv`, `send` and `write` share the loops of `read` through the direction parameter of `Descriptor.Fd.Op`.
- Base 36 printing: the source's chunk table has no entry for it, so bases 2 to 35 are modelled.
- Appending a part of a buffer to itself, `push_back` and the comparison of a buffer: nothing new is proved about them.
- function_view, pinned, variant, hash, flags, cexec, raw and the other template utilities: easy members.
- NumericStr.IntToStr: the least value of the widened signed type is excluded, because negating it is undefined in the source.
- NumericStr.UintToStr: the type has at most 128 bits, so that the 8-bit position counter of the source does not wrap.
- Sock.Sock6ToStr: for an overlong address the buffer of the model has the 48 characters that are touched, not the declared 46 that the source writes past.
- StrBuf.StrBuf.Append: texts long enough to reach the tag bit of the length word are excluded; the allocator refuses them first.
- Handles.HandleF.Release: an empty handle gives `None` where the source throws.
