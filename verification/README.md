# Verified model of the wifidog gateway's protocol and session code

The project models three groups of C code and proves what they promise.

* **RADIUS client library.** MD5 (`Md5Spec` is RFC 1321, `Md5` the buffered
  implementation), attribute-value pairs and their linked lists (`ValuePairs`),
  serialising with vendor nesting and password hiding (`Packing`), the recursive
  parser and the iterative walk over the same octets (`Parsing`), their round
  trip (`RoundTrip`), the reply path (`Reply`) and pairs read from text
  (`PairText`).
* **Web server text engines.** The in-place path sanitiser (`Sanitise`,
  `Segments`), percent escaping (`UrlText`), the multimap of request variables
  (`Variables`), the query parser that fills it (`Query`), Base64 (`Base64`),
  the content directory tree (`ContentDir`) and address lists (`IpAcl`).
* **Gateway state.** The client list (`ClientList`), its hand-over to a
  successor process (`HandOver` is the text, `Restart` the two loops), the
  login, refresh and logout steps that mirror access in a key-value store
  (`Session`), what each step does in the values of the protocol (`Outcomes`)
  and what the mirror is worth after a hand-over (`Succession`).

`Bits` and `CText` hold what several modules share: integers as octets and
words, C strings and the decimal conversions of the C library. Code that works
on a buffer is a method on an array, code that relinks nodes is a method on a
class, and each is proved against a function whose properties the lemmas state.
The callbacks are serial steps: the semaphores that would order them
(gateway.c:234, gateway.c:245) are comments in the source.

The periodic check of src/firewall.c, lines 384 to 470, is modelled beside the
callbacks: `Session.Gateway.DisableAllAuth` and
`Session.Gateway.SyncWithAuthserver` walk a copy of the client list while the
list changes, `Session.SyncedAgrees` shows that the store still agrees when the
calls succeed, `Session.AllOffline` that every listed address has state 3 and
access -1 once all have been disabled, however the calls go, and
`Outcomes.SyncedMeaning` that otherwise the last decisive answer for an address
is what its client is left with.

## What the code does differently from what one would expect

* The carry test of MD5Update compares with the length in octets. Exactly when
  the high count word is wrong is `Md5.HighCountExactly`; 2^29 octets are
  needed for that, and misses can cancel (`Md5.HighFoldExactly`).
* A vendor value over 247 octets, a non-zero date and an id above 255 do not
  survive the wire (`RoundTrip.RoundTripExactly`). An integer or address of the
  wrong length stays in the parsed list with value zero.
* A parsed list is lost when its last attribute is unknown and nothing was in
  the list before (`Parsing.GenMeaning`), and the reply is parsed even when the
  authenticator did not match (`Reply.ReceiveReply`).
* A comma does not separate items of pair text, although the field scanner
  stops at it (`PairText.CommaIsNoSeparator`). An address that does not convert
  returns an error but leaves the list as it was.
* Two adjacent ".." segments remove one segment (`Segments.AdjacentDotsCounterexample`).
* The name buffer of the query parser keeps the tail of an earlier, longer name
  (`Query.QueryExactly`, `Query.StaleQuery`), a last piece without "=" is dropped
  (`Query.LastPieceDropped`), and a plus sign is not escaped but read as a space.
* httpdSetVariableValue looks a name up with its leading blanks and adds it
  without (`Variables.SetThenGet`).
* The Base64 cap on the output size comes too late: `Base64.InsideExactly` says
  exactly when all stores stay below the size, and `Base64.OutsideInputs` and
  `Base64.CappedInput` give inputs on which they do not.
* The hand-over cuts texts at an equals sign and numbers at 2^63 - 1
  (`HandOver.HandedExactly`); access, name and password are not handed over, and
  the successor flushes the store, so after a restart list and store agree only
  when there was no client (`Succession.FlushedAgrees`).
* A store write that was missed is not made up for by refreshes to the same
  access (`Session.MissedIsKept`; `Session.GrantedExactly` says which step makes
  up for it), and a logout can leave the store without the access of an older
  client with the same address (`Session.LogoutExactly`).

## Model

| member | source | states |
|---|---|---|
| `Md5.F1Meaning` | home/developer/workspace/source/wifidog/freeradius-client-master/freeradius-client-master/lib/md5.c:146-147 | The selector written with one and and two xors is F of section 3.4 of RFC 1321 for all words. |
| `Md5.F2Meaning` | home/developer/workspace/source/wifidog/freeradius-client-master/freeradius-client-master/lib/md5.c:148 | F1 with rotated arguments is G of section 3.4 of RFC 1321. |
| `Bits.RotatedParts` | home/developer/workspace/source/wifidog/freeradius-client-master/freeradius-client-master/lib/md5.c:153-154 | Rotating by s moves the lower 32 - s bits up by s and brings the upper s bits in below, for every word and shift. |
| `Md5.MacroStepMeaning` | home/developer/workspace/source/wifidog/freeradius-client-master/freeradius-client-master/lib/md5.c:153-154 | The macro, which adds data and constant first and the register x last, is the operation of RFC 1321 under 32-bit wrap-around. |
| `Md5.MD5Transform` | home/developer/workspace/source/wifidog/freeradius-client-master/freeradius-client-master/lib/md5.c:161-251 | The 64 unrolled steps with renamed registers change the state by the table-driven four-round compression of RFC 1321, for every state and block. |
| `Md5.HighCountExactly` | home/developer/workspace/source/wifidog/freeradius-client-master/freeradius-client-master/lib/md5.c:82-88 | After an update the high count word is exact if and only if the length survives the cut to 32 bits and the test against the length in octets answers as a true carry would. |
| `Md5.CarryAgreesBelowLimit` | home/developer/workspace/source/wifidog/freeradius-client-master/freeradius-client-master/lib/md5.c:82-88 | Below 2^29 octets in all the guard always holds. |
| `Md5.CarryMissed` | home/developer/workspace/source/wifidog/freeradius-client-master/freeradius-client-master/lib/md5.c:84 | 16 octets after 2^29 - 8 are an input on which the carry is missed and the count is wrong. |
| `Md5.Md5Context.Init` | home/developer/workspace/source/wifidog/freeradius-client-master/freeradius-client-master/lib/md5.c:58-67 | A fresh context represents the empty message with an exact count. |
| `Md5.Md5Context.Update` | home/developer/workspace/source/wifidog/freeradius-client-master/freeradius-client-master/lib/md5.c:73-112 | The context then represents the old octets followed by the new ones: state is the fold of the whole blocks, buffer holds exactly the tail, and the count stays exact if and only if the carry guard holds. |
| `Md5.Md5Context.Final` | home/developer/workspace/source/wifidog/freeradius-client-master/freeradius-client-master/lib/md5.c:118-141 | The result is the digest of everything seen with the length words as counted, hence the RFC 1321 digest when the count is exact; the context is wiped. |
| `Md5.HighFoldExactly` | home/developer/workspace/source/wifidog/freeradius-client-master/freeradius-client-master/lib/md5.c:82-88 | At the end of a run of updates the high count word is exact if and only if the missed and the false carries add up to a multiple of 2^32. |
| `Md5.MissesCancel` | home/developer/workspace/source/wifidog/freeradius-client-master/freeradius-client-master/lib/md5.c:84 | Updates of 2^29, 2^29 - 8 and 16 octets meet a false carry, then none, then miss one. |
| `Md5.HashRun` | home/developer/workspace/source/wifidog/freeradius-client-master/freeradius-client-master/lib/md5.c:58-141 | For every message and every way of cutting it into updates the digest is that of the whole message with the length words as counted; it is the RFC 1321 digest when the misses add up to nothing, in particular when every carry agrees or below 2^29 octets. |
| `Md5.Md5Calc` | home/developer/workspace/source/wifidog/freeradius-client-master/freeradius-client-master/lib/rc-md5.c:20-28 | One-shot hashing of a buffer of any length gives the digest with the length words as counted, which is the RFC 1321 digest when the carry test agrees with the length. |
| `ValuePairs.GetAttr` | home/developer/workspace/source/wifidog/freeradius-client-master/freeradius-client-master/lib/dict.c:358-371 | The first dictionary entry with the number, and nothing if and only if no entry has it. |
| `ValuePairs.Assign` | home/developer/workspace/source/wifidog/freeradius-client-master/freeradius-client-master/lib/avpair.c:55-100 | A string is accepted if and only if it has at most 253 octets, an IPv6 value if and only if its size is right, an integer, address or date if and only if it is a number; the pair then shows exactly what was given. |
| `ValuePairs.AvpairGet` | home/developer/workspace/source/wifidog/freeradius-client-master/freeradius-client-master/lib/avpair.c:348-356 | The first pair of the linked list with this id and vendor, or null. |
| `ValuePairs.AvpairInsert` | home/developer/workspace/source/wifidog/freeradius-client-master/freeradius-client-master/lib/avpair.c:367-411 | The new node is linked behind the given one or at the end; all other nodes keep order and contents. |
| `Packing.UnhideUndoesHide` | home/developer/workspace/source/wifidog/freeradius-client-master/freeradius-client-master/lib/sendserver.c:85-103 | Un-xoring the cipher blocks with the digests of secret and previous cipher block gives back every padded password. |
| `Packing.PasswordRecovered` | home/developer/workspace/source/wifidog/freeradius-client-master/freeradius-client-master/lib/sendserver.c:65-107 | What the server recovers is the password cut at 48 octets and padded with zeros to the least multiple of 16 (section 5.2 of RFC 2865). |
| `Packing.PasswordIsHidden` | home/developer/workspace/source/wifidog/freeradius-client-master/freeradius-client-master/lib/sendserver.c:65-107 | Attribute 2 never goes out in clear: behind its id and its length stands what a server un-hides to the first 48 octets of the password, padded with zeros. |
| `Packing.CountedExactly` | home/developer/workspace/source/wifidog/freeradius-client-master/freeradius-client-master/lib/sendserver.c:37-157 | The returned total equals the octets written if and only if every pair has a type the packer knows. |
| `Packing.PutHidden` | home/developer/workspace/source/wifidog/freeradius-client-master/freeradius-client-master/lib/sendserver.c:85-103 | The digest is written to the packet and the password block xored into it there; the result is the chained hiding. |
| `Packing.PutLength` | home/developer/workspace/source/wifidog/freeradius-client-master/freeradius-client-master/lib/sendserver.c:78-79 | The length octet is written and added to the length of the enclosing Vendor-Specific attribute, which wraps at 256. |
| `Packing.PackPair` | home/developer/workspace/source/wifidog/freeradius-client-master/freeradius-client-master/lib/sendserver.c:49-154 | One turn of the loop writes exactly the attribute of one pair and counts its octets. |
| `Packing.PackList` | home/developer/workspace/source/wifidog/freeradius-client-master/freeradius-client-master/lib/sendserver.c:37-157 | The attributes of the whole linked list, in order, behind the packet header, nothing else changed, and the returned total. |
| `Parsing.GenMeaning` | home/developer/workspace/source/wifidog/freeradius-client-master/freeradius-client-master/lib/avpair.c:183-339 | For every input, what rc_avpair_gen returns: all known attributes in order when everything looked at is framed, nothing otherwise, and nothing when an empty list meets an unknown last attribute. |
| `Parsing.UnknownIsSkipped` | home/developer/workspace/source/wifidog/freeradius-client-master/freeradius-client-master/lib/avpair.c:219-250 | An attribute that stands for no pair, anywhere but at the end, leaves the result unchanged, unless its own payload is parsed and badly framed, which loses the list. |
| `Parsing.UnknownLast` | home/developer/workspace/source/wifidog/freeradius-client-master/freeradius-client-master/lib/avpair.c:219-250 | A user name alone parses to one pair, followed by an unknown attribute to none. |
| `Parsing.AvpairGen` | home/developer/workspace/source/wifidog/freeradius-client-master/freeradius-client-master/lib/avpair.c:183-339 | The recursive generator on linked nodes returns a list with exactly the pairs of Gen. |
| `Parsing.Walk` | home/developer/workspace/source/wifidog/freeradius-client-master/freeradius-client-master/lib/sendserver.c:421-448 | The iterative walk accepts exactly the octets WalkAccepts describes, up to the whole buffer. |
| `Parsing.WalkExactly` | home/developer/workspace/source/wifidog/freeradius-client-master/freeradius-client-master/lib/sendserver.c:421-448 | The walk accepts if and only if every attribute fits and none has id zero. |
| `Parsing.FramedTopLevel` | home/developer/workspace/source/wifidog/freeradius-client-master/freeradius-client-master/lib/avpair.c:195-216 | Everything the parser looks at is well framed if and only if the top level is and so is the payload of every known vendor. |
| `Parsing.WalkedIsParsed` | home/developer/workspace/source/wifidog/freeradius-client-master/freeradius-client-master/lib/sendserver.c:421-456 | On octets the walk accepted the parser never fails on a top-level length: only a nested payload or an unknown last attribute can empty the result. |
| `RoundTrip.RoundTripExactly` | home/developer/workspace/source/wifidog/freeradius-client-master/freeradius-client-master/lib/avpair.c:183-339 | Parsing undoes packing, same pairs in the same order, if and only if every pair is one the wire can carry: the first dictionary entry with its number has its name and type, its vendor is listed, its id is one octet and its length fits. |
| `RoundTrip.GenFitsVendor` | home/developer/workspace/source/wifidog/freeradius-client-master/freeradius-client-master/lib/avpair.c:219-237 | No input parses to a vendor pair with more than 247 value octets. |
| `RoundTrip.NewIsCarried` | home/developer/workspace/source/wifidog/freeradius-client-master/freeradius-client-master/lib/avpair.c:111-170 | A pair made through the dictionary is carried unless it is a non-zero date or too long for a vendor attribute. |
| `RoundTrip.WalkAcceptsPacked` | home/developer/workspace/source/wifidog/freeradius-client-master/freeradius-client-master/lib/sendserver.c:37-157 | Every output of the packer on known types is accepted by the walk and as long as the total says. |
| `Reply.CheckReply` | home/developer/workspace/source/wifidog/freeradius-client-master/freeradius-client-master/lib/sendserver.c:515-607 | The result is OK exactly when the lengths fit, the id matches and the authenticator is that of section 3 of RFC 2865; the vector and the secret have been spliced into the buffer. |
| `Reply.ReceiveReply` | home/developer/workspace/source/wifidog/freeradius-client-master/freeradius-client-master/lib/sendserver.c:402-502 | The reply path: errors before anything is parsed, then pairs parsed from the buffer the check has overwritten; an authentic reply gives 0 for the codes 2, 5 and 8, 2 for the codes 3 and 9 and -2 otherwise, any other reply -2. |
| `Reply.AuthenticExactly` | home/developer/workspace/source/wifidog/freeradius-client-master/freeradius-client-master/lib/sendserver.c:515-607 | A reply is authentic if and only if its length is legal and it is the response section 3 of RFC 2865 has the server build from its own code and attributes for this request, id and secret. |
| `Reply.EndToEnd` | home/developer/workspace/source/wifidog/freeradius-client-master/freeradius-client-master/lib/sendserver.c:404-491 | A response built as section 3 of RFC 2865 asks, around a packed list, passes every check, parses to that list and gives the result of its code. |
| `PairText.FieldCopy` | home/developer/workspace/source/wifidog/freeradius-client-master/freeradius-client-master/lib/avpair.c:439-472 | The field cut to the room there is, quoted or up to a stop character, and where scanning goes on. |
| `PairText.AvpairParse` | home/developer/workspace/source/wifidog/freeradius-client-master/freeradius-client-master/lib/avpair.c:486-701 | The loop terminates on every text; code and list are those of Parse, the old list included. |
| `PairText.Step` | home/developer/workspace/source/wifidog/freeradius-client-master/freeradius-client-master/lib/avpair.c:499-699 | Each turn that goes on makes the measure of remaining characters and mode smaller, though names and values may be empty. |
| `PairText.ItemsParse` | home/developer/workspace/source/wifidog/freeradius-client-master/freeradius-client-master/lib/avpair.c:486-701 | Blank-separated items name="text", name=decimal and name=word append, in order, pairs that show exactly their values: the characters of a string, every number below 2^32, the number a value name stands for, or what the library calls convert an address, prefix or date to; whatever the octets of a fresh pair held. |
| `PairText.PrefixShown` | home/developer/workspace/source/wifidog/freeradius-client-master/freeradius-client-master/lib/avpair.c:609-627 | An address, a slash and a printed length below 256 make a prefix of 18 octets: zero, the length and the address. |
| `PairText.LongName` | home/developer/workspace/source/wifidog/freeradius-client-master/freeradius-client-master/lib/avpair.c:509-522 | A name is looked up by its first 63 characters, however long it is. |
| `PairText.ValueRejected` | home/developer/workspace/source/wifidog/freeradius-client-master/freeradius-client-master/lib/avpair.c:565-650 | A value that does not convert ends the parse with an error; the list is dropped for an unknown value name or type and kept for an address. |
| `PairText.MissingSign` | home/developer/workspace/source/wifidog/freeradius-client-master/freeradius-client-master/lib/avpair.c:524-539 | Anything but an equals sign behind a name ends the parse with an error and drops the list. |
| `PairText.CommaIsNoSeparator` | home/developer/workspace/source/wifidog/freeradius-client-master/freeradius-client-master/lib/avpair.c:508-521 | A comma where a name is expected ends the parse with an error and drops the whole list, whatever the dictionary. |
| `Sanitise.DropDoubleSlashes` | home/developer/workspace/source/wifidog/wifidog-gateway-master/libhttpd/protocol.c:670-683 | The first in-place pass computes Pass1. |
| `Sanitise.DropSlashDots` | home/developer/workspace/source/wifidog/wifidog-gateway-master/libhttpd/protocol.c:685-698 | The second in-place pass computes Pass2. |
| `Sanitise.BacktrackDotDots` | home/developer/workspace/source/wifidog/wifidog-gateway-master/libhttpd/protocol.c:700-718 | The third in-place pass, whose write pointer goes back but never passes the read pointer, computes Pass3. |
| `Sanitise.SanitiseUrl` | home/developer/workspace/source/wifidog/wifidog-gateway-master/libhttpd/protocol.c:664-719 | The buffer ends up holding the sanitised text. |
| `Sanitise.SanitisedIsClean` | home/developer/workspace/source/wifidog/wifidog-gateway-master/libhttpd/protocol.c:664-719 | For every input the result has none of "//", "/./" and "/../": later passes bring back nothing earlier ones removed. |
| `Sanitise.LeadingSlashSurvives` | home/developer/workspace/source/wifidog/wifidog-gateway-master/libhttpd/protocol.c:664-719 | A leading slash survives. |
| `Sanitise.SanitisedTwice` | home/developer/workspace/source/wifidog/wifidog-gateway-master/libhttpd/protocol.c:664-719 | Sanitising twice is sanitising once. |
| `Segments.PointerPass` | home/developer/workspace/source/wifidog/wifidog-gateway-master/libhttpd/protocol.c:704-718 | The character pass is a machine over segments that can go back over one segment only. |
| `Segments.PointerPassIsStackExactly` | home/developer/workspace/source/wifidog/wifidog-gateway-master/libhttpd/protocol.c:704-718 | On an absolute path the pass equals a popping segment stack if and only if no ".." directly after another has a segment left to remove. |
| `Segments.SanitisedIsStack` | home/developer/workspace/source/wifidog/wifidog-gateway-master/libhttpd/protocol.c:664-719 | Without adjacent ".." segments sanitising is running the segment stack. |
| `Segments.AdjacentDotsCounterexample` | home/developer/workspace/source/wifidog/wifidog-gateway-master/libhttpd/protocol.c:706-713 | "/a/b/../../c" becomes "/a/c", not "/c". |
| `UrlText.Escape` | home/developer/workspace/source/wifidog/wifidog-gateway-master/libhttpd/protocol.c:633-662 | The buffer is allocated to the exact length, filled with the escaped text and ended with its terminator. |
| `UrlText.Unescape` | home/developer/workspace/source/wifidog/wifidog-gateway-master/libhttpd/protocol.c:265-294 | In place: the unescaped text and a terminator at the same address, everything outside untouched. |
| `UrlText.SpelledRead` | home/developer/workspace/source/wifidog/wifidog-gateway-master/libhttpd/protocol.c:259-294 | However a text of octets is spelled, as it is or with percent signs and two hex digits of either case, unescaping gives exactly these octets, and a space for every plus sign. |
| `UrlText.CutEscape` | home/developer/workspace/source/wifidog/wifidog-gateway-master/libhttpd/protocol.c:274-281 | An escape the text ends in: a lone digit counts as the upper one, a lone percent sign leaves the character that stood where it is written. |
| `UrlText.OtherRead` | home/developer/workspace/source/wifidog/wifidog-gateway-master/libhttpd/protocol.c:259-263 | Any character that is neither a digit nor a capital hex letter counts as its code less 87, modulo 256. |
| `UrlText.EscapedExactly` | home/developer/workspace/source/wifidog/wifidog-gateway-master/libhttpd/protocol.c:612-660 | A character is left alone if and only if it is a letter, a digit or one of the listed signs; any other becomes a percent sign and its two capital hex digits. |
| `UrlText.EscapedIsText` | home/developer/workspace/source/wifidog/wifidog-gateway-master/libhttpd/protocol.c:629-662 | Escaped text has neither "=" nor "&" and only ASCII characters. |
| `UrlText.UnescapeUndoesEscape` | home/developer/workspace/source/wifidog/wifidog-gateway-master/libhttpd/protocol.c:629-662 | Unescaping an escaped text gives it back with spaces for its plus signs, so unchanged if and only if it has none. |
| `Variables.AddedMeaning` | home/developer/workspace/source/wifidog/wifidog-gateway-master/libhttpd/api.c:163-194 | Adding appends to the values of the stripped name, leaves all other names alone and keeps names distinct. |
| `Variables.AddedAllMeaning` | home/developer/workspace/source/wifidog/wifidog-gateway-master/libhttpd/api.c:163-194 | A run of additions gives every name exactly the values given for it, in order. |
| `Variables.SetThenGet` | home/developer/workspace/source/wifidog/wifidog-gateway-master/libhttpd/api.c:83-127 | After a set, a get of the same name finds the value if and only if the name does not start with a blank; other names keep theirs. |
| `Variables.Request.AddVariable` | home/developer/workspace/source/wifidog/wifidog-gateway-master/libhttpd/api.c:163-194 | The chains of names and values are extended to those of the added pair. |
| `Variables.Request.GetVariableByName` | home/developer/workspace/source/wifidog/wifidog-gateway-master/libhttpd/api.c:83-95 | The head of the first value chain with this name, or null. |
| `Variables.Request.SetVariableValue` | home/developer/workspace/source/wifidog/wifidog-gateway-master/libhttpd/api.c:113-127 | The first value is replaced in place, or the pair added. |
| `Query.StoreData` | home/developer/workspace/source/wifidog/wifidog-gateway-master/libhttpd/protocol.c:317-372 | The loop, which unescapes inside the query it still reads, stores what QueryStored says of the original text. |
| `Query.ScanStores` | home/developer/workspace/source/wifidog/wifidog-gateway-master/libhttpd/protocol.c:331-370 | The character loop equals storing piece by piece between ampersands: name up to the first "=", value behind the last one. |
| `Query.QueryExactly` | home/developer/workspace/source/wifidog/wifidog-gateway-master/libhttpd/protocol.c:317-372 | For every query: what is stored is one addition per pair passed to httpdAddVariable, and these pairs are the names and values the pieces state if and only if no piece that is passed on without an equals sign is stale: stale means that among the earlier pieces that write at or beyond its end in the name buffer the latest has a longer name. |
| `Query.StaleQuery` | home/developer/workspace/source/wifidog/wifidog-gateway-master/libhttpd/protocol.c:331-364 | The query "abc=1&x&" is stored as abc with value "1" and xbc with an empty value. |
| `Query.LastPieceDropped` | home/developer/workspace/source/wifidog/wifidog-gateway-master/libhttpd/protocol.c:366-370 | A last piece without an equals sign is dropped, whatever precedes it. |
| `Query.QueryRoundTrip` | home/developer/workspace/source/wifidog/wifidog-gateway-master/libhttpd/protocol.c:265-372 | Joining name=escaped value with ampersands and storing gives every stripped name its values in order, spaces for plus signs. |
| `Base64.InitTable` | home/developer/workspace/source/wifidog/wifidog-gateway-master/libhttpd/protocol.c:214-220 | The table maps every octet to its value in the alphabet of section 4 of RFC 4648, or 64. |
| `Base64.LetterIs` | home/developer/workspace/source/wifidog/wifidog-gateway-master/libhttpd/protocol.c:188-194 | The alphabet of section 4 of RFC 4648, letter by letter. |
| `Base64.DecodeGroups` | home/developer/workspace/source/wifidog/wifidog-gateway-master/libhttpd/protocol.c:241-247 | The loop writes the octets of every group of four characters. |
| `Base64.Decode` | home/developer/workspace/source/wifidog/wifidog-gateway-master/libhttpd/protocol.c:183-257 | Octets, length and terminator for every text and every output size, applied cap included: groups up to the capped count, the terminator at the index computed from the uncapped one. |
| `Base64.DecodeUndoesEncode` | home/developer/workspace/source/wifidog/wifidog-gateway-master/libhttpd/protocol.c:183-257 | Every octet string comes back from its letters, behind blanks and with or without padding. |
| `Base64.PaddedRoundTrip` | home/developer/workspace/source/wifidog/wifidog-gateway-master/libhttpd/protocol.c:183-257 | Every octet string comes back from its padded encoding; the room needed is its length rounded up to three. |
| `Base64.InsideExactly` | home/developer/workspace/source/wifidog/wifidog-gateway-master/libhttpd/protocol.c:233-257 | With the cap as it is applied, every group and the terminator are stored below the given size if and only if the uncapped groups are at most that size and the decoded length is below it: the cap rescues no input. |
| `Base64.WrittenInside` | home/developer/workspace/source/wifidog/wifidog-gateway-master/libhttpd/protocol.c:183-257 | In that case the buffer holds the decoded octets and the terminator, and is unchanged from the given size on. |
| `Base64.OutsideInputs` | home/developer/workspace/source/wifidog/wifidog-gateway-master/libhttpd/protocol.c:235-256 | "QUJD" overruns a size of 2 by its group and a size of 3 by its terminator, and stays inside a size of 4. |
| `Base64.CappedInput` | home/developer/workspace/source/wifidog/wifidog-gateway-master/libhttpd/protocol.c:235-256 | For "QUJDQUJD" and a size of 3 the cap leaves out the second group, but the terminator still goes to index 6. |
| `ContentDir.StrTok` | home/developer/workspace/source/wifidog/wifidog-gateway-master/libhttpd/protocol.c:430-450 | Each call returns the next non-empty stretch between slashes and cuts the buffer there. |
| `ContentDir.SegsAreNames` | home/developer/workspace/source/wifidog/wifidog-gateway-master/libhttpd/protocol.c:422-450 | However many slashes stand before, between and behind the names of a path, its segments are exactly the names, in order. |
| `ContentDir.ContentTree.FindChild` | home/developer/workspace/source/wifidog/wifidog-gateway-master/libhttpd/protocol.c:432-437 | The search of the child list finds the node of the longer path if and only if there is one. |
| `ContentDir.ContentTree.AddChild` | home/developer/workspace/source/wifidog/wifidog-gateway-master/libhttpd/protocol.c:440-444 | One new node for the longer path; every other path keeps its node. |
| `ContentDir.ContentTree.FindContentDir` | home/developer/workspace/source/wifidog/wifidog-gateway-master/libhttpd/protocol.c:422-453 | The node of the segments of the truncated path; creating adds exactly the missing prefixes, looking up adds nothing. |
| `ContentDir.ContentTree.SiblingsDistinct` | home/developer/workspace/source/wifidog/wifidog-gateway-master/libhttpd/protocol.c:432-444 | Siblings have distinct names. |
| `ContentDir.RunFinds` | home/developer/workspace/source/wifidog/wifidog-gateway-master/libhttpd/protocol.c:422-453 | After any run of calls a path has a node if and only if it is a prefix of a created one, and it keeps the node it got. |
| `IpAcl.ScanCidr` | home/developer/workspace/source/wifidog/wifidog-gateway-master/libhttpd/ip_acl.c:43-83 | The cursor-driven scan computes CidrOf. |
| `IpAcl.ScanPrinted` | home/developer/workspace/source/wifidog/wifidog-gateway-master/libhttpd/ip_acl.c:43-83 | Printed blocks are read back, and accepted if and only if octets are at most 255 and the length at most 32, as atoi reads them. |
| `IpAcl.BlockHasDots` | home/developer/workspace/source/wifidog/wifidog-gateway-master/libhttpd/ip_acl.c:53-70 | No text with fewer than three dots is accepted. |
| `IpAcl.OctetsDecide` | home/developer/workspace/source/wifidog/wifidog-gateway-master/libhttpd/ip_acl.c:72-110 | A block of length 8, 16, 24 or 32 shares its top bits with an address if and only if the first one, two, three or four octets are the same. |
| `IpAcl.MaskCompares` | home/developer/workspace/source/wifidog/wifidog-gateway-master/libhttpd/ip_acl.c:100-110 | Equality under the mask 2^len - 1 shifted left by 32 - len is equality of the top len bits. |
| `IpAcl.SameTopBits` | home/developer/workspace/source/wifidog/wifidog-gateway-master/libhttpd/ip_acl.c:100-110 | The comparison of shifted addresses, bit by bit. |
| `IpAcl.IsInCidrBlock` | home/developer/workspace/source/wifidog/wifidog-gateway-master/libhttpd/ip_acl.c:85-111 | The wrapping mask loop answers whether the block is no longer than the address and shares its top bits. |
| `IpAcl.AddAcl` | home/developer/workspace/source/wifidog/wifidog-gateway-master/libhttpd/ip_acl.c:117-163 | Null and an unchanged list for a bad block or action, otherwise one more entry at the end. |
| `IpAcl.CheckAcl` | home/developer/workspace/source/wifidog/wifidog-gateway-master/libhttpd/ip_acl.c:165-191 | The action of the first covering entry, deny without one or for a bad address. |
| `IpAcl.EarliestDecides` | home/developer/workspace/source/wifidog/wifidog-gateway-master/libhttpd/ip_acl.c:117-191 | For every list built by additions the earliest accepted block sharing the client's top bits decides, deny without one. |
| `ClientList.List.Insert` | home/developer/workspace/source/wifidog/wifidog-gateway-master/src/client_list.c:94-106 | The client becomes the head with the next id; ids fall strictly from the head and stay below the counter. |
| `ClientList.List.Add` | home/developer/workspace/source/wifidog/wifidog-gateway-master/src/client_list.c:116-141 | A new client at the head with state and access -1. |
| `ClientList.List.Dup` | home/developer/workspace/source/wifidog/wifidog-gateway-master/src/client_list.c:147-176 | Fresh nodes in the same order with equal ids and fields, descriptor cleared. |
| `ClientList.List.FindByClient` | home/developer/workspace/source/wifidog/wifidog-gateway-master/src/client_list.c:221-233 | The first node with the id of the given copy, or null. |
| `ClientList.List.Find` | home/developer/workspace/source/wifidog/wifidog-gateway-master/src/client_list.c:241-254 | The first node with this address and hardware address, or null. |
| `ClientList.List.SetStateAccess` | home/developer/workspace/source/wifidog/wifidog-gateway-master/src/client_list.c:291-307 | The first client with the address gets the new values and remembers its old ones; no other changes. |
| `ClientList.List.Remove` | home/developer/workspace/source/wifidog/wifidog-gateway-master/src/client_list.c:500-523 | Exactly the given node is unlinked if it is listed, nothing otherwise. |
| `ClientList.List.Delete` | home/developer/workspace/source/wifidog/wifidog-gateway-master/src/client_list.c:479-493 | Exactly the first client with the address goes. |
| `ClientList.RunFinds` | home/developer/workspace/source/wifidog/wifidog-gateway-master/src/client_list.c:94-233 | Over every run of inserts and removes the id of a copy finds the original as long as it has stayed listed, and nothing once it has left. |
| `HandOver.HandedExactly` | home/developer/workspace/source/wifidog/wifidog-gateway-master/src/gateway.c:536-565 | A client arrives whole if and only if its texts have no "=", its totals are below 2^63 and its time stamp is not negative. |
| `HandOver.StaleIsNoKey` | home/developer/workspace/source/wifidog/wifidog-gateway-master/src/gateway.c:510-540 | On a line ending in a digit, a key pointer left over from the previous line reads as no key at all. |
| `HandOver.StaleMatters` | home/developer/workspace/source/wifidog/wifidog-gateway-master/src/gateway.c:527-540 | The lines "CLIENT||=" and "CLIENT|xip" are an input on which pointers left over from the first line give the second client an address. |
| `HandOver.LineIs` | home/developer/workspace/source/wifidog/wifidog-gateway-master/src/wdctl_thread.c:315-325 | The printed line, spelled out. |
| `HandOver.LineGot` | home/developer/workspace/source/wifidog/wifidog-gateway-master/src/gateway.c:498-578 | A printed line is read back as its client, whatever the pointers held. |
| `HandOver.HandOverRoundTrip` | home/developer/workspace/source/wifidog/wifidog-gateway-master/src/wdctl_thread.c:314-327 | The whole printed list is received as exactly the handed clients in reverse order. |
| `Restart.StrSep` | home/developer/workspace/source/wifidog/wifidog-gateway-master/src/gateway.c:510-518 | Cuts the text at the first delimiter and says where it goes on. |
| `Restart.SplitField` | home/developer/workspace/source/wifidog/wifidog-gateway-master/src/gateway.c:516-525 | The inner loop leaves the key and the part between the first two equals signs, and drops the rest. |
| `Restart.TakeToken` | home/developer/workspace/source/wifidog/wifidog-gateway-master/src/gateway.c:527-565 | A token of a client line creates the client if there is none yet and assigns the field under the key, and changes nothing in the buffer. |
| `Restart.ParseLine` | home/developer/workspace/source/wifidog/wifidog-gateway-master/src/gateway.c:507-566 | One line, cut in place, gives the client and the pointers LineClient and LinePtrs describe. |
| `Restart.GetClients` | home/developer/workspace/source/wifidog/wifidog-gateway-master/src/gateway.c:492-580 | The character loop over the one line buffer inserts exactly the clients Received describes. |
| `Restart.WriteToSocket` | home/developer/workspace/source/wifidog/wifidog-gateway-master/src/wdctl_thread.c:222-240 | When no write fails the whole text is sent, whatever portions are taken; otherwise a proper prefix, after exactly one failed write. |
| `Restart.SendClients` | home/developer/workspace/source/wifidog/wifidog-gateway-master/src/wdctl_thread.c:314-327 | Of every client in list order a start of its line is sent, and exactly as many lines are cut as writes fail; without a failed write all lines are sent whole. |
| `Restart.HandOverClients` | home/developer/workspace/source/wifidog/wifidog-gateway-master/src/gateway.c:492-580 | Printing, sending and receiving: the successor's list starts with what every client becomes, reversed. |
| `Session.GrantedExactly` | home/developer/workspace/source/wifidog/wifidog-gateway-master/src/gateway.c:161-193 | From every state, agreeing or not, list and store agree on a listed address after a state change if and only if the new access is -1, the store held it already, or firewall and store answered and the access has changed. |
| `Session.GrantedAgrees` | home/developer/workspace/source/wifidog/wifidog-gateway-master/src/gateway.c:161-193 | From an agreeing state, list and store agree after a state change if and only if the client is not listed, the new access is -1, firewall and store answered, or the store happened to hold the value. |
| `Session.RunAgrees` | home/developer/workspace/source/wifidog/wifidog-gateway-master/src/gateway.c:249-430 | Over every run of logins and refreshes whose firewall and store calls succeed, a recorded access other than -1 is stored, although unchanged values are not written. |
| `Session.MissedIsKept` | home/developer/workspace/source/wifidog/wifidog-gateway-master/src/gateway.c:249-319 | Over every run of refreshes, from every state: when all refreshes of an address ask for the same access, only the first decides whether list and store agree on it in the end, by an exact condition; later ones never repair a missed change. |
| `Session.LogoutExactly` | home/developer/workspace/source/wifidog/wifidog-gateway-master/src/gateway.c:136-154 | From an agreeing state, exactly when agreement survives a logout: not if the accounting call fails for a client with a recorded access, nor if an older client with the address comes up behind. |
| `Session.Gateway.RedisSetAccess` | home/developer/workspace/source/wifidog/wifidog-gateway-master/src/gateway.c:161-193 | Only a changed access of the first client with the address is written. |
| `Session.Gateway.SetFwRedis` | home/developer/workspace/source/wifidog/wifidog-gateway-master/src/gateway.c:99-135 | The commands for new and old clients: what is stored and what is returned at each failing call. |
| `Session.Gateway.DelFwRedis` | home/developer/workspace/source/wifidog/wifidog-gateway-master/src/gateway.c:136-154 | The command for a leaving client, up to the call that fails. |
| `Session.Gateway.HttpCallbackFirst` | home/developer/workspace/source/wifidog/wifidog-gateway-master/src/gateway.c:322-430 | The login callback changes list and store as LoggedIn says. |
| `Session.Gateway.HttpCallbackFresh` | home/developer/workspace/source/wifidog/wifidog-gateway-master/src/gateway.c:249-319 | The refresh callback changes list and store as Refreshed says. |
| `Session.Gateway.HttpCallbackDisconnect` | home/developer/workspace/source/wifidog/wifidog-gateway-master/src/gateway.c:231-247 | The disconnect callback changes list and store as LoggedOut says. |
| `Outcomes.LoginMeaning` | home/developer/workspace/source/wifidog/wifidog-gateway-master/src/gateway.c:386-421 | A login of a new client puts it at the head with its name, password, token and addresses, and state and access 2 and 1 when granted, 3 and 0 when refused, -1 and -1 otherwise; the store gets that access and the name as far as the calls succeed. |
| `Outcomes.LoginRefused` | home/developer/workspace/source/wifidog/wifidog-gateway-master/src/gateway.c:329-386 | A login changes nothing if an argument is missing, the server is away or a client with both addresses is listed. |
| `Outcomes.RefreshMeaning` | home/developer/workspace/source/wifidog/wifidog-gateway-master/src/gateway.c:249-319 | A refresh gives the first client with the address 3 and -1 when the server is away, 2 and 1 when granted, 3 and 0 when refused, remembers the old values and writes the store exactly when firewall and store answer and the access changes. |
| `Outcomes.LogoutMeaning` | home/developer/workspace/source/wifidog/wifidog-gateway-master/src/gateway.c:136-154 | A logout clears the store for the address and removes exactly its first client, up to the call that fails. |
| `Outcomes.UnlistedIsIgnored` | home/developer/workspace/source/wifidog/wifidog-gateway-master/src/gateway.c:231-319 | Refreshes and logouts of an address that no client has change neither list nor store. |
| `Outcomes.GrantMeaning` | home/developer/workspace/source/wifidog/wifidog-gateway-master/src/gateway.c:99-135 | What a state change and its command do to list and store, and the result, for every outcome of the calls. |
| `Succession.HandedAgrees` | home/developer/workspace/source/wifidog/wifidog-gateway-master/src/gateway.c:536-565 | The handed list agrees with a store if and only if that store refuses every handed address, since no access is handed over. |
| `Succession.FlushedAgrees` | home/developer/workspace/source/wifidog/wifidog-gateway-master/src/gateway.c:770 | After the flush of the store the successor starts in agreement if and only if no client was handed over. |
| `Succession.RefusedStaysOut` | home/developer/workspace/source/wifidog/wifidog-gateway-master/src/gateway.c:184-190 | Over every run of refreshes that refuse a handed client the flushed store never comes to agree on it. |

## Left out

- Sockets, retries, name resolution, timers, iptables, the store's transport, processes, signals, threads, locks and logging: their outcomes are parameters (`Session.Env`, `Restart.Socket`), packets are octet sequences.
- Allocation failure and freeing; a freed list is one that is no longer returned.
- Accesses outside a buffer: buffers that are large enough, and memory that is readable, are preconditions.
- inet_pton, mktime and time of day are parameters of the model; the address and date branches of pair text are modelled up to them. rc_avpair_tostr, rc_avpair_log and rc_avpair_readin are not modelled.
- Parsing.Walk: the code reads the octet after a lone last one, so a lone last octet at the very end of the buffer is excluded; so it is in Reply.ReceiveReply.
- Base64.Decode: the array must reach beyond every store the code makes, inside the given size or not; what an overrun does to other memory is not modelled.
- Packing.PackList: the secret must be below 2^28 octets, so that every hash is exact; the code's own hash buffer is smaller.
- ClientList.List.Insert: the 64-bit id counter must not be at its last value, after which ids would repeat.
- Session.Gateway.SetFwRedis: the firewall call is a chosen result; its reload of the traffic history of a client is not modelled.
- Session.Gateway.HttpCallbackFresh: for an unlisted client the code also frees a null node, which is not modelled; redirects and responses are not modelled.
- Session.Gateway.HttpCallbackFirst: copying the three arguments into 128-octet buffers is not modelled.
- Restart.GetClients: every line must fit the 4096-octet buffer; fields of a client that a line does not name are empty texts here, null pointers there.
- The concatenation of Reply-Message texts in rc_send_server, accounting, ping, configuration and dictionary files, and the other lookup functions of the client list and the request: simple members that would repeat what is here.
- Shifting an int by 32 in the mask of a block of length 0 is taken to leave the zero mask zero; a vendor number above 16 bits is cut as 32-bit arithmetic does; strtol is that of a 64-bit platform.
- The JavaScript, HTML, CSS, configuration and test files.
