# Perdition, modelled in Dafny

Perdition is a mail proxy written in C. It reads a client's commands over POP3, IMAP4
or ManageSieve, may upgrade the connection to TLS, looks up a server for the user, logs
in there, and from then on pipes bytes. This project models the parts of it that compute
something, each in the form the program gives it - buffers edited in place, loops with
moving cursors, objects whose fields are reassigned - and proves what they promise.

`dafny verify dfyconfig.toml` checks everything. One file is one module:

- **Reading.** `Tokenizer` is the one static read buffer with its two indices, refilled
  from whatever chunks a connection delivers, proved equal to a tokenizer of the whole
  byte stream. `Lines` has the laws of that tokenizer: independence of the chunking, what
  a captured line is, and printing a queue of tokens back.
- **ManageSieve strings.** `Acap` prints them, `AcapToken` decodes them, `AcapRoundTrip`
  says which survive the wire.
- **Strings edited in place.** `Capability` and `CapabilityList` (delete and append in a
  delimited list), `SpaceLists` (the same where two spaces delimit, with spaces too many),
  `Offers` (what each protocol advertises), `Delimiters` (the exchange of delimiters for
  line ends), `LdapFilter` (`%Ns` expansion), `Unescape` (the two replace
  passes of IMAP4 quoted strings). `Buffers`, `Text` and `Numbers` are the C library calls
  they share.
- **Codecs and counters.** `Packet` (the map daemon's packets), `ImapTag` (the base-62
  tag), `ServerPort` (`user@server:port`), `IoSelect` (the idle timer cut into slices).
- **The client's side.** `ClientAuth`, `Pop3In`, `Imap4In`, `ManagesieveIn`: the three
  command loops, each proved against a function of the input stream. `Imap4Meaning` and
  `ManagesieveMeaning` (and `Pop3In` itself) say over every input when a call logs in and
  as whom; `Imap4Login` and `Imap4Plain` have the round trips of IMAP4's LOGIN, with quoted
  strings and literals, and with words as they stand.
- **The server's side.** `Dialogue`, `Pop3Out`, `Imap4Out`, `ManagesieveOut`: negotiation
  and login. `Imap4Replies` and `ManagesieveListing` say line by line what is made of a reply
  and of a capability. `OwnReplies` reads what perdition says to a client as it reads a
  server. `Refusals` has the servers at which setup breaks its promises. `Pop3Forward`,
  `Imap4Forward` and `ManagesieveForward` say when what is sent on is what was received.
- **The session.** `SessionRuns` is the main loop as a machine of events, with the
  invariants of all its runs; `Protocols` is the table of function pointers; `Session` is
  the loop itself, proved to make only runs of that machine, and to record in them what it
  writes to each server and to the client; `SessionMeaning` says what that is worth on the
  wire, and `SessionVerdicts` who is let in and what the others are told.

How the outside world enters: a connection (`Tokenizer.Io`) is an arbitrary list of chunks
still to be read, and a record of what was written; writes succeed. The network, the
lookup, local authentication, the clock and `select` answer arbitrarily; each of them can
go on only finitely often, by a bound that is itself arbitrary, which is what makes the
endless loops end. Bytes are `char`; C strings are strings without NUL.

Where the code and its comments disagree, the model follows the code:

- In `pop3_out_setup` the status variable still holds the 1 of the greeting when
  negotiation fails, so a missing CAPA or STLS is reported as success without TLS even when
  TLS is forced, and a refusal of STLS is taken for consent; `perdition/perdition.c:993-1005`
  is what then keeps the credentials back. `Pop3Out.SetupMeaning` states exactly when, and
  that being forced makes no difference;
  `Refusals.NoCapaSucceeds` and `Refusals.ErrIsConsent` are inputs.
- In `imap4_out_setup` a broken CAPABILITY exchange leaves the result of a string
  comparison for a status (taken here for the difference of the bytes, of which C promises
  only the sign), and a NO to STARTTLS is taken for consent. `Imap4Out.SetupMeaning`
  states exactly when setup succeeds and when it announces TLS; `Refusals.BrokenOffSucceeds`
  and `Refusals.NoIsConsent` are inputs.
- In `imap4_out_get_capability` a tagged reply that cannot be read counts as "found"
  (`Imap4Out.CapabilityMeaning`, and `Refusals.ListingThenEnd` for an input).
- `imap4_out_authenticate` sends user and password whatever the server says to the lines
  before them.
- `managesieve_out_setup` turns the STARTTLS bit over where TLS is not wanted
  (`ManagesieveOut.SetupTurnsBit`).
- With `tls_listen_force` a connection gets one attempt only, since the clean-up clears the
  listen bit and STARTTLS is refused on a TLS connection (`SessionRuns.OneAttemptUnderForce`).
- For the same reason STARTTLS is offered again, and refused, on a connection whose TLS has
  outlived a clean-up (`SessionMeaning.OfferedAndRefused`; `SessionMeaning.OfferedAndRefusedRun`
  is a run in which it happens).
- Where two spaces delimit a capability list, as in ManageSieve and in POP3 without a dot,
  STLS or STARTTLS is not shown when a space stands at the end of the list or in front of an
  element that is that word already (`Offers.Pop3CapabilityMeaning` and
  `Offers.ManagesieveCapabilityMeaning` say exactly when, `Offers.SpaceHidesStls` has a list).
- An IMAP4 client may log in with an empty quoted name or password; the empty literal sent
  on is refused by a server that reads as perdition does (`Imap4Forward.ForwardingKeepsCredentials`
  for exactly when, `Imap4Forward.EmptyNameAccepted` for an input).
- A quoted IMAP4 argument reaches its decoder in one piece only if its spaces lie behind an
  even number of its quotes, escaped ones included (`Unescape.QuotedArgument`,
  `Imap4Login.TwoArguments`).

## Model

| member | source | states |
|---|---|---|
| Tokenizer.ScanTakesPrefix | perdition/token.c:278-362 | a token is cut from the front of the stream: what is left is a suffix, and no more bytes are gone than the caller's buffer has room for |
| Tokenizer.TokenBuffer.FillBuffer | perdition/token.c:205-241 | a refill loses and reorders nothing: the pending bytes and those still to come are the same stream, and a connection is read only when nothing is pending |
| Tokenizer.TokenBuffer.Flush | perdition/token.c:184-188 | after a flush nothing read before is seen again |
| Tokenizer.TokenBuffer.TokenRead | perdition/token.c:278-362 | for every chunking, the token is that of the whole stream, the rest of the stream is left, and the caller's buffer holds exactly the bytes consumed, in order |
| Tokenizer.TokenBuffer.ReadLine | perdition/queue_func.c:59-118 | the same for a line of tokens; the captured length never exceeds the room given, what is captured is exactly what was removed from the stream, and the rest of the buffer is zeroed |
| Lines.LineIsLocal | perdition/queue_func.c:68-115 | the tokens returned are the tokenization of exactly the bytes consumed, whatever follows them |
| Lines.Perform | perdition/token.c:205-362 | any sequence of token and line reads answers as the tokenizer of the whole stream does and leaves the same suffix |
| Lines.SameBytesSameAnswers | perdition/token.c:216-241 | two connections with the same bytes in different chunks give the same answers to every sequence of reads |
| Lines.TokenizePrintIdentity | perdition/queue_func.c:133-175 | printing a line's tokens gives the line without CRs and final LF exactly when no token fills the 4096-byte buffer |
| Lines.TextAfterFirstToken | perdition/pop3_in.c:378-390 | what is printed after the first token is all text after the first space, which is what a password is |
| Lines.ReadLineChops | perdition/token.c:278-339 | a line of any length is its text cut at the spaces outside quotes and wherever a token has filled the buffer |
| Lines.ReadLineSplits | perdition/token.c:321-339 | for a line of any length: it is its text split at the spaces outside quotes, by a splitter that knows no buffers, if and only if no piece fills the buffer |
| Lines.WholeLineToken | perdition/token.c:321-339 | where the whole line is wanted, spaces and quotes are part of the token |
| Lines.FullRoomCuts | perdition/token.c:278-339 | a capture buffer that is full ends the token where it is |
| Text.SameInSmallLetters | perdition/token.c:442-449 | two words are taken for the same exactly when they are so in small letters |
| Lines.QueueToString | perdition/queue_func.c:133-175 | the buffer counted in the first loop is filled to its last byte by the second, with the printed text and its NUL |
| Acap.NLen | perdition/acap.c:22-39 | the length computed for a number is exactly its count of decimal digits |
| Acap.WriteList | perdition/managesieve_write.c:27-85 | the strings that are there, joined by spaces, in a buffer of exactly their size |
| Acap.ManagesieveWrite | perdition/managesieve_write.c:87-143 | a command and its string, quoted or as a literal with its length |
| AcapToken.StrnIsAtom | perdition/acap_token.c:104-116 | true exactly for strings of atom characters of legal length |
| AcapToken.StrnIsQuoted | perdition/acap_token.c:118-133 | true exactly for a pair of quotes around characters that may stand there |
| AcapToken.AtomMeaning | perdition/acap_token.c:28-35 | which characters an atom is made of, as ranges |
| AcapToken.QuotedCharMeaning | perdition/acap_token.c:37-102 | what may stand between quotes: 7-bit characters, the two special ones behind a backslash, and the sequences of two to four bytes by what their bytes are |
| AcapToken.StrtoulOfDecimal | perdition/acap_token.c:171-190 | a printed number is read back with its value and its end |
| AcapToken.TokenWrapperLiteral | perdition/acap_token.c:239-317 | a literal is exactly the bytes announced, over every chunking, and the line must go on behind them with a space or its end |
| AcapToken.TokenWrapper | perdition/acap_token.c:338-371 | the string at the head of a line, over every chunking, as a function of the stream |
| AcapRoundTrip.QuotedRoundTrip | perdition/managesieve_write.c:87-143 | a string without CR or LF is printed, tokenized and decoded back exactly when it fits a quoted string, holds only legal characters and its spaces stand at an odd number of quotes |
| AcapRoundTrip.LiteralRoundTrip | perdition/acap_token.c:239-317 | a string with CR or LF always comes back, as a literal |
| AcapRoundTrip.WireRoundTrip | perdition/acap.c:41-105 | print, tokenize, decode: the same string comes back as the last argument of its line if and only if it survives |
| AcapRoundTrip.PlainStringsSurvive | perdition/acap_token.c:63-102 | every 7-bit string without quotes and backslashes that fits survives, whether char is signed or not |
| AcapRoundTrip.LiteralForms | perdition/managesieve_write.c:87-143 | a literal from a client has a plus and nothing is waited for, one from a server has none |
| Capability.DeleteSubstring | perdition/str.c:482-535 | the loop, which ends although its cursor moves back, deletes exactly the delimited occurrences, and keeps every move inside the buffer |
| Capability.AppendSubstringIfMissing | perdition/str.c:552-612 | the needle is appended exactly when no element of the list is the needle |
| CapabilityList.DelIsFilter | perdition/str.c:482-535 | on a delimited list, deletion is the filter of its elements |
| CapabilityList.HasIsMember | perdition/str.c:565-590 | an element is found exactly when it is a member of the list |
| CapabilityList.AddIsAppend | perdition/str.c:552-612 | on a delimited list, addition appends if absent |
| CapabilityList.DelUndoesAdd | perdition/str.c:482-612 | deleting an absent needle after adding it gives the string back |
| CapabilityList.DelIdentity | perdition/str.c:482-535 | a string without the element is not touched |
| CapabilityList.EditsAreListEdits | perdition/protocol.c:210-235 | for every string and one-character delimiter both edits are list edits of its fields |
| Offers.OfferMeaning | perdition/protocol.c:210-235 | an offer lists the capability exactly when it is on and disturbs nothing else |
| Offers.ProtocolCapability | perdition/protocol.c:210-235 | one call adds or deletes, as its mode says |
| SpaceLists.AddIsListed | perdition/str.c:552-612 | for every list delimited by two spaces: exactly when an added capability is one of the elements, and exactly when the elements are those there were and the capability |
| SpaceLists.DelIsUnlisted | perdition/str.c:482-535 | for every such list: a deleted capability is none of the elements, and exactly when the elements are all the others |
| SpaceLists.HasInList | perdition/str.c:565-590 | for every such list: the capability is found exactly where it is an element behind the first, or one with a space in front is |
| SpaceLists.NothingLeft | perdition/str.c:482-535 | for every such list: deletion leaves nothing for deletion to find |
| Offers.Pop3Capability | perdition/pop3_in.c:162-200 | the reply to CAPA is the edited list, which the dot delimits if there is one in it and two spaces if not, with its delimiters exchanged for line ends and the closing dot |
| Offers.Pop3CapabilityMeaning | perdition/pop3_in.c:162-200 | for every configured list: STLS is a line of the reply exactly when TLS is offered, the listen bit of tls_state is clear and the list can show it |
| Offers.DottedList | perdition/pop3_in.c:170-190 | for every list with a dot: the lines are the fields between its dots with STLS added or taken out, and STLS is one of them exactly when it is on |
| Offers.SpacedList | perdition/pop3_in.c:170-190 | for every list without: exactly when STLS is a line, and exactly when the lines are those between its two-space delimiters with STLS added or taken out |
| Offers.DefaultPop3List | perdition/options.h:143 | the replies, with TLS and without, to the list perdition has if none is configured |
| Offers.SpaceHidesStls | perdition/pop3_in.c:103-151 | a configured list, and its reply, in which a space at the end joins the delimiter and hides STLS; two spaces do not |
| Offers.ManagesieveCapability | perdition/managesieve.c:229-258 | the capability sent is the edited list with its delimiters exchanged for line ends |
| Offers.ManagesieveCapabilityMeaning | perdition/managesieve.c:229-258 | the same exact conditions as for POP3, for every configured list |
| Offers.LinesAreOffer | perdition/pop3_in.c:177-190 | with a delimiter of one character the edited lines are always the offer |
| Offers.ImapCapability | perdition/imap4.c:211-252 | the capability is the list edit of its configured fields |
| Offers.ImapOfferMeaning | perdition/imap4.c:211-252 | STARTTLS is listed exactly when TLS is offered and the listen bit of tls_state is clear, LOGINDISABLED exactly while it is clear where login is disabled or TLS forced, and everything else as configured |
| Offers.DefaultImapList | perdition/options.h:128 | what IMAP4 lists by default while TLS is forced and not begun |
| Delimiters.SplitRejoins | perdition/pop3_in.c:103-151 | the pieces joined by the delimiter are the string |
| Delimiters.SplitIsLeftmost | perdition/pop3_in.c:118-140 | no piece but the last hides a delimiter: the split is the leftmost one without overlaps |
| Delimiters.LengthOfJoin | perdition/managesieve.c:182-193 | the length after an exchange of delimiters, from the count of them |
| Delimiters.CountDelimiters | perdition/pop3_in.c:112-122 | the counting loop counts the pieces of the split less one |
| Delimiters.Mangle | perdition/pop3_in.c:103-151 | the pieces joined with CRLF and the tail, in a buffer whose precomputed length is exactly what is written |
| Delimiters.SplitOnJoin | perdition/managesieve.c:171-216 | pieces without the delimiter are found again |
| LdapFilter.ExpandPlaceholder | perdition/db/ldap/perditiondb_ldap.c:158-231 | `%Ns` stands for the key right-justified in a field of N, `%s` for the key |
| LdapFilter.ExpandField | perdition/db/ldap/perditiondb_ldap.c:207-222 | the field written out: text without a percent sign, then as many spaces as the key is short of N, then the key, then the expansion of the rest |
| LdapFilter.PlainText | perdition/db/ldap/perditiondb_ldap.c:158-231 | everything else stands for itself |
| LdapFilter.UidFilter | perdition/db/ldap/perditiondb_ldap.c:207-222 | `(uid=%5s)` for bob |
| LdapFilter.Splice | perdition/db/ldap/perditiondb_ldap.c:195-222 | the move and the copy replace the placeholder's bytes and no others, within the buffer |
| LdapFilter.GetFilterStr | perdition/db/ldap/perditiondb_ldap.c:158-231 | for every well-formed template and every key the edited buffer is the expansion of the template; inserted text is never expanded again |
| Unescape.StrReplace | perdition/str.c:655-705 | each pass over the buffer is the leftmost replacement that does not look at its own output |
| Unescape.EscapeInverse | perdition/imap4_in.c:304-329 | one left-to-right unescape inverts escaping, for every string |
| Unescape.TwoPassesAreOne | perdition/imap4_in.c:304-329 | on every well-formed quoted body the two passes equal that one unescape |
| Unescape.DecodeInvertsQuote | perdition/imap4_in.c:304-329 | decoding gives back every string that was quoted |
| Unescape.TokenToString | perdition/imap4_in.c:304-329 | the in-place edits compute the decoding, of which `DecodeInvertsQuote` and `Imap4Plain.WordDecodes` say what it is |
| Imap4Plain.WordDecodes | perdition/token.c:419-422 | a word stands for itself exactly when it has not a quote at both ends and no escape; it never becomes longer |
| Unescape.QuotedArgument | perdition/token.c:327-332 | a quoted string is one token exactly when its spaces stand behind an even number of quotes, escaped ones counted |
| Packet.Packet.InitHead | perdition/db/daemon/lib/packet.c:192-231 | refuses any checksum and any oversized body and otherwise fills every field; the length never wraps |
| Packet.Packet.InitRequest | perdition/db/daemon/lib/packet.c:87-116 | succeeds exactly when the strings fit, and the packet then holds them in order |
| Packet.Packet.InitStringRequest | perdition/db/daemon/lib/packet.c:119-158 | the same for six strings, key and delimiter first |
| Packet.Packet.InitResponse | perdition/db/daemon/lib/packet.c:161-189 | the same for user, server and port |
| Packet.Packet.Verify | perdition/db/daemon/lib/packet.c:258-416 | accepts exactly packets of its kind whose strings add up to the length field, and finds the strings where they are |
| Packet.SpansOfFields | perdition/db/daemon/lib/packet.c:233-250 | reading from where a field was written finds it and every field after it |
| Packet.PacketRoundTrip | perdition/db/daemon/lib/packet.c:87-416 | what an init function made, its own verify function accepts with equal strings and the other two refuse; head and body are at most 65000 bytes |
| Packet.FieldsOnWire | perdition/db/daemon/lib/packet.c:219-228 | on machines of either byte order the fields stand on the wire most significant byte first |
| Packet.HeadOnWire | perdition/db/daemon/lib/packet.c:192-231 | the bytes of the head an init function makes: magic number, version, kind, length, no checksum |
| Packet.AcceptsOnWire | perdition/db/daemon/lib/packet.c:258-416 | a verify function accepts exactly bytes with that magic number, its kind, no checksum, a possible length, and strings that add up to it |
| Packet.StringsOnWire | perdition/db/daemon/lib/packet.c:60-85 | two strings as bytes: each its length and then itself |
| ImapTag.TagInc | perdition/imap4_tag.c:84-132 | the right-to-left carry loop computes the next tag in place |
| ImapTag.IncIsSuccessor | perdition/imap4_tag.c:84-132 | the next tag is the successor modulo 62 to the power of the length, in the order 0-9, a-z, A-Z |
| ImapTag.TagExamples | perdition/imap4_tag.c:84-132 | the order of the digits, and a carry |
| ImapTag.NumberInjective | perdition/imap4_tag.c:84-132 | tags of one length are numbered without repetition |
| ImapTag.TagsDistinct | perdition/imap4_tag.c:84-132 | as many successive tags as there are numbers are pairwise different |
| ImapTag.TagsCycle | perdition/imap4_tag.c:84-132 | and then the first comes again |
| ImapTag.VerifyTag | perdition/imap4_in.c:414-447 | accepts exactly the nonempty strings of `!` to `~` without the eight reserved characters |
| ImapTag.TagsAreValid | perdition/imap4_tag.c:51-72 | every tag perdition sends is six characters it would itself accept |
| ServerPort.StrnAssign | perdition/server_port.c:127-205 | the cutting of the buffer computes the parse: an IPv6 literal, else the last colon, else the last delimiter, decide |
| ServerPort.FindLastString | perdition/str.c:66-93 | the last occurrence of a string |
| ServerPort.Length | perdition/server_port.c:352-365 | the length is exactly that of the displayed text |
| ServerPort.DisplayTo | perdition/server_port.c:308-324 | the concatenations fill the buffer with the displayed text |
| ServerPort.ParseUndoesDisplay | perdition/server_port.c:127-205 | parsing a displayed triple without brackets gives it back if and only if the port has no colon, none appears without a port, and the delimiter is not found later than where it was put |
| ServerPort.Ipv6LiteralParses | perdition/server_port.c:140-195 | a bracketed address is taken whole, with or without user and port, and the three come back if and only if the delimiter printed is the last one |
| IoSelect.SelectPending | perdition/io_select.c:223-278 | descriptors with TLS data held back are always reported, without waiting, the count is that of the bits set, and it fails exactly when the system's call fails |
| IoSelect.Select | perdition/io_select.c:280-351 | time waited plus time left is the timeout given; a zero return means the whole of it passed; it fails exactly when the system's last call did; there is at most one call per second; a line is written at every reading of the clock at which one is due and at no other, and no call waits beyond the next |
| IoSelect.NextSlice | perdition/io_select.c:308-328 | the line is written exactly when it is due; the slice and what is left add up to what there was, and it ends when the next line is due at the latest |
| IoSelect.LinesMeaning | perdition/io_select.c:314-317 | over any readings of the clock: a reading is a line exactly when it is not before the time the line before has set, and none is ever overdue afterwards |
| Pop3In.GetAuth | perdition/pop3_in.c:277-422 | over every chunking the loop answers, leaves and says what a function of the stream says, starting with no user named |
| Pop3In.GetAuthMeaning | perdition/pop3_in.c:277-422 | it logs in exactly when a PASS with text comes after an obeyed USER and nothing ended the loop before; the user is the last obeyed USER's argument and the password the text of that PASS |
| Pop3In.ActMeaning | perdition/pop3_in.c:304-398 | one command goes on exactly when it is none of those that end the loop, and names a user exactly when it is a USER with one nonempty argument |
| Pop3In.UpgradeOnlyInClear | perdition/pop3_in.c:323-339 | STLS is answered only where TLS is on offer and not in use |
| Pop3Out.Setup | perdition/pop3_out.c:62-242 | greeting, CAPA and STLS as a function of what the server sends |
| Pop3Out.CapaLinesMeaning | perdition/pop3_out.c:157-186 | STLS counts exactly when it is alone on a line before the closing dot |
| Pop3Out.SetupMeaning | perdition/pop3_out.c:62-242 | exactly when setup succeeds, when it announces TLS and what it sends: CAPA where TLS is wanted, STLS where it is listed; being forced makes no difference to anything |
| Refusals.NoCapaSucceeds | perdition/pop3_out.c:62-242 | a server without CAPA, with which setup succeeds without TLS |
| Refusals.ErrIsConsent | perdition/pop3_out.c:62-242 | a server that lists STLS and answers -ERR to it is taken to have agreed |
| Pop3Forward.CredentialsAreSendable | perdition/pop3_in.c:277-422 | the credentials returned hold no line end, and the user no space |
| Pop3Forward.LoginReachesServer | perdition/pop3_out.c:263-318 | the lines sent log in with the same credentials at a server that reads as perdition does |
| Pop3Forward.ForwardingKeepsCredentials | perdition/pop3_out.c:263-318 | from client to server nothing is lost or added |
| Imap4In.TokenWrapper | perdition/imap4_in.c:255-301 | an argument is a token as it stands, or the bytes its length announces, asked for where the client waits |
| Imap4In.GetAuth | perdition/imap4_in.c:487-706 | over every chunking the command loop answers, leaves and says what a function of the stream says |
| Imap4In.UpgradeOnlyInClear | perdition/imap4_in.c:540-557 | STARTTLS is answered only where TLS is on offer and not in use |
| Imap4Meaning.GetAuthMeaning | perdition/imap4_in.c:487-706 | over every input, a call logs in exactly when some line of it is a LOGIN whose two arguments, quoted or literal, decode to the credentials, and no line before ended the loop |
| Imap4Meaning.NothingBefore | perdition/imap4_in.c:487-706 | the answer and what is left to read depend on nothing before that line |
| Imap4Meaning.ActMeaning | perdition/imap4_in.c:509-690 | one command logs in exactly when it is such a LOGIN, and goes on exactly when it is none of those that end the loop |
| Imap4Meaning.LoginMeaning | perdition/imap4_in.c:589-690 | which arguments a LOGIN takes for which credentials, and exactly when the input ending breaks it off; for the arguments as sent see `QuotedLogin`, `LiteralLogin` and `PlainLogin` |
| Imap4Login.TwoArguments | perdition/token.c:321-339 | two quoted arguments are told apart exactly when the first closes its quotes and neither has a space outside them |
| Imap4Login.QuotedLogin | perdition/imap4_in.c:589-690 | a LOGIN of quoted strings, of any length, gives back exactly the strings quoted, with nothing more said or read, if and only if none of its tokens fills the buffer, the tokenizer tells the two apart and the password does not look like a literal's length |
| Imap4Login.QuoteAndSpaceIsNoWord | perdition/token.c:327-332 | a string for which the tokenizer does not |
| Imap4Login.DecodedTokensAreQuoted | perdition/imap4_in.c:304-329 | no other cut of the line decodes to the same two strings |
| Imap4Login.LiteralLogin | perdition/imap4_in.c:589-690 | a LOGIN of literals gives back exactly the bytes sent, whatever they are, up to 4096 of each, and asks for each: if and only if neither is empty |
| Imap4Plain.PlainLogin | perdition/imap4_in.c:589-690 | `tag LOGIN user passwd` with words as they stand gives back exactly these words, with nothing more said or read, if and only if each is a nonempty word of one token without an escape, no token fills the buffer and the password does not look like a literal's length |
| Imap4Plain.LowerCaseLogin | perdition/imap4_in.c:589-690 | `a login bob secret` logs in as bob with secret |
| Imap4Plain.LengthForms | perdition/imap4_in.c:255-301 | `{3}` announces a literal that is waited for, `{3+}` one that is not, and what is said where it is |
| Imap4Out.ReadResponse | perdition/imap4_out.c:463-531 | the reply with the awaited tag as a function of the stream, of which `Imap4Replies` says what it is; the capture buffer holds exactly the bytes of the reply's line |
| Imap4Replies.UntaggedLines | perdition/imap4_out.c:487-497 | for any number of untagged lines before the awaited reply: status, queue and rest are those of what follows them, and these lines are passed on to the client, in order, as text |
| Imap4Replies.UntaggedSkipped | perdition/imap4_out.c:487-497 | without a client to pass them on to they are skipped |
| Imap4Replies.TaggedLine | perdition/imap4_out.c:499-531 | a line whose first word is the tag is the reply; its second word decides and the others are returned |
| Imap4Replies.StrangeLine | perdition/imap4_out.c:499-531 | a line that is neither ends the reply with an error, the line consumed and nothing passed on |
| Imap4Replies.StrangeListing | perdition/imap4_out.c:463-531 | so does one without a star where an untagged line is awaited |
| Imap4Replies.ListingBeforeReply | perdition/imap4_out.c:487-497 | a listing that comes before the reply it is not part of |
| Imap4Out.GetCapability | perdition/imap4_out.c:67-149 | the exchange as a function of what the server sends, with the capture length it leaves |
| Imap4Out.MentionsMeaning | perdition/imap4_out.c:110-124 | a capability is found exactly when some token of the listing is its name |
| Imap4Out.CapabilityMeaning | perdition/imap4_out.c:67-149 | a capability counts as found exactly when the server lists its name, or when the listing is not followed by a tagged reply that can be read |
| Imap4Out.SetupMeaning | perdition/imap4_out.c:171-271 | exactly when setup succeeds, when it announces TLS and what it sends, the strcmp result and the refused STARTTLS included |
| Refusals.BrokenOffSucceeds | perdition/imap4_out.c:219-247 | servers that greet and break off: one with which setup succeeds though TLS is forced, one for which it announces TLS |
| Refusals.NoIsConsent | perdition/imap4_out.c:248-266 | a server that lists STARTTLS and answers NO to it is taken to have agreed |
| Refusals.ListingThenEnd | perdition/imap4_out.c:126-133 | a server that does not list the capability and breaks off is taken to have listed it |
| Imap4Out.AuthMeaning | perdition/imap4_out.c:296-387 | the credentials are sent exactly when LOGINDISABLED was not found, and then in full; the login succeeds exactly when they are sent and the command's own reply is OK |
| Imap4Out.LoginReachesServer | perdition/imap4_out.c:337-367 | the literals sent log in with the same credentials at a server that reads as perdition does, if and only if neither is empty |
| Imap4Forward.CredentialsAreStrings | perdition/imap4_in.c:589-690 | whatever a client sends, the credentials returned hold no NUL |
| Imap4Forward.ForwardingKeepsCredentials | perdition/imap4_out.c:337-367 | from client to server nothing is lost or added, if and only if neither user nor password is empty |
| Imap4Forward.EmptyNameAccepted | perdition/imap4_in.c:621-665 | a client that logs in with an empty name |
| ManagesieveIn.GetAuth | perdition/managesieve_in.c:536-560 | over every chunking the status machine answers, leaves and says what a function of the stream says |
| ManagesieveIn.UpgradeOnlyInClear | perdition/managesieve_in.c:496-507 | STARTTLS is answered only where TLS is on offer and not in use |
| ManagesieveMeaning.GetAuthMeaning | perdition/managesieve_in.c:536-560 | over every input, a call logs in exactly when some line of it is an AUTHENTICATE "PLAIN" whose challenge, quoted or literal, decodes to the credentials, and no line before ended the loop |
| ManagesieveMeaning.NothingBefore | perdition/managesieve_in.c:536-560 | the answer and what is left to read depend on nothing before that line |
| ManagesieveMeaning.ActMeaning | perdition/managesieve_in.c:458-534 | one command logs in exactly when it is such an AUTHENTICATE, and goes on exactly when it is none of those that end the loop |
| ManagesieveOut.ReadCapability | perdition/managesieve_out.c:46-107 | the parse of the capability, literals included, as a function of what the server sends |
| ManagesieveListing.ListingMeaning | perdition/managesieve_out.c:46-107 | whatever the server sends: STARTTLS is found exactly when it is the first string of a line, and SASL PLAIN exactly when it is among the strings behind SASL on a line; what is read ends at the first word that is no string, and its being OK decides |
| ManagesieveListing.ListingReads | perdition/managesieve_out.c:46-107 | a listing of plain quoted strings, as text, is read as what it says |
| ManagesieveListing.TlsListed | perdition/managesieve_out.c:77-93 | a server that lists STARTTLS is found to |
| ManagesieveOut.SetupMeaning | perdition/managesieve_out.c:129-174 | STARTTLS is sent exactly when it is wanted and listed; with TLS wanted, success has its bit exactly when it was sent, and only if the server said OK; forced, there is no success without |
| ManagesieveOut.SetupTurnsBit | perdition/managesieve_out.c:141-142 | where TLS is not wanted the bit comes back turned over and the SASL bit as it was |
| ManagesieveForward.ChallengeReachesServer | perdition/managesieve_out.c:176-201 | the challenge sent is the one decoded at the other end, for every challenge that survives the wire |
| Protocols.ClientRunMeaning | perdition/perdition.c:773-803 | in all three protocols in_get_auth begins TLS only where it is on offer and not in use, and an answer takes input |
| Protocols.Quit | perdition/quit.c:48-85 | the quit command is sent, exactly its reply taken from the stream, nothing passed on to the client, the tag advanced |
| OwnReplies.FirstWordDecides | perdition/pop3_out.c:336-362 | the first word of a line decides, whatever follows it, and the line is all that is read |
| OwnReplies.Pop3Verdict | perdition/perdition.c:1018-1066 | the line by which a POP3 client is let in or refused, and that it is taken for just that |
| OwnReplies.ManagesieveVerdict | perdition/perdition.c:1018-1066 | the same for ManageSieve |
| OwnReplies.Imap4Verdict | perdition/perdition.c:1018-1066 | the same for IMAP4, with the client's tag |
| OwnReplies.CapaReads | perdition/pop3_out.c:157-186 | a listing is read up to its closing dot, and STLS found exactly if it is one of its lines |
| OwnReplies.Pop3CapaIsAnswered | perdition/pop3_in.c:304-322 | CAPA is answered with the capability and nothing else comes of it |
| OwnReplies.Pop3CapaIsRead | perdition/pop3_out.c:157-186 | from that reply STLS is found exactly if it is one of the lines listed, and the reply is read to its end |
| OwnReplies.CapabilityIsAnswered | perdition/imap4_in.c:559-580 | CAPABILITY is answered with the capability and an OK, and nothing else comes of it |
| OwnReplies.CapabilityIsRead | perdition/imap4_out.c:67-149 | from that reply exactly the words listed are found, and it is read to its end |
| OwnReplies.ManagesieveCapabilityIsAnswered | perdition/managesieve_in.c:458-534 | the same for ManageSieve |
| OwnReplies.ManagesieveCapabilityIsRead | perdition/managesieve_out.c:46-107 | from that reply STARTTLS and SASL PLAIN are found exactly as they are listed |
| OwnReplies.SessionOffers | perdition/perdition.c:773-775 | in all three protocols a client that asks for the capability is told the offer of the session |
| OwnReplies.QuitIsObeyed | perdition/quit.c:48-85 | in all three protocols the quit command ends the loop of a server that reads as perdition does, and the reply read is all that server says |
| OwnReplies.Pop3Answers | perdition/pop3_in.c:304-398 | which commands are answered +OK and which -ERR |
| OwnReplies.Imap4Answers | perdition/imap4_in.c:509-690 | which commands but LOGIN are answered with their tag and OK, and that all others are with NO or BAD |
| OwnReplies.ManagesieveAnswers | perdition/managesieve_in.c:458-534 | which commands without a challenge are answered OK, and that all others are answered NO |
| SessionRuns.BitsAreTruthful | perdition/perdition.c:119-134 | in every run a bit of tls_state says that its connection is TLS; kept by every step and by the clean-up |
| SessionRuns.NoLoginBeforeServerTls | perdition/perdition.c:968-1015 | with tls_outgoing_force no run authenticates before the server's connection was upgraded in the same attempt |
| SessionRuns.OnlyAdmitted | perdition/perdition.c:805-906 | where login is disabled, or TLS forced and not begun, no credentials are looked up; a server is connected to only for a user found and, where that is wanted, accepted locally |
| SessionRuns.LoginInClear | perdition/perdition.c:933-1015 | exactly when credentials go out in the clear, and that force excludes it |
| SessionRuns.AttemptsHaveOrigin | perdition/perdition.c:771-1058 | every step of an attempt uses the password of the last in_get_auth, read from the same connection |
| SessionRuns.CredentialsCameOverTls | perdition/perdition.c:771-813 | with tls_listen_force everything that reaches lookup or server was read over TLS |
| SessionRuns.OneAttemptUnderForce | perdition/perdition.c:797-813 | with tls_listen_force a second set of credentials is never looked up |
| SessionRuns.BitLostByCleanUp | perdition/perdition.c:119-134 | at any moment of any run, the client's connection is TLS and the listen bit clear exactly when TLS was there from the start or has outlived a clean-up |
| SessionRuns.FreshBuffers | perdition/token.c:184-188 | the calls right after an upgrade, every setup and every authentication begin with an empty token buffer |
| SessionMeaning.TagsInOrder | perdition/imap4_tag.c:84-132 | in every run the tag of each command sent is the next of the sequence that begins with the first tag |
| SessionMeaning.ClearServerHearsNothing | perdition/perdition.c:955-1006 | with tls_outgoing_force, all that is ever written to a server without TLS is one round of requests for its capability and TLS with the tag that is next, and one quit command with the one that is next then, in every run of every protocol: nothing that depends on the client |
| SessionMeaning.ObeyedMeaning | perdition/perdition.c:793-803 | in all three protocols a STARTTLS or STLS line is obeyed exactly where TLS is offered and the connection is not TLS, whatever follows it |
| SessionMeaning.OfferedAndRefused | perdition/perdition.c:119-134 | at any moment of any run of a configuration the program can take, exactly when STARTTLS is in the capability sent and would be refused; and it is obeyed only where it is in that capability, if the configured list can show it |
| SessionMeaning.OfferedAndRefusedRun | perdition/perdition.c:793-873 | a run in which it is |
| SessionVerdicts.AcceptanceMeaning | perdition/perdition.c:1008-1034 | out_authenticate succeeds exactly when the server accepts: in POP3 when it says +OK to user and password, in IMAP4 when the tagged reply behind the literals is OK, in ManageSieve when SASL PLAIN is to be had and the reply is OK |
| SessionVerdicts.LetInMeaning | perdition/perdition.c:1008-1066 | in every run of every protocol: behind a login the server has accepted the client is told so and let in; behind any other comes the clean-up or the end of the process |
| SessionVerdicts.OnlyTheAcceptedGetIn | perdition/perdition.c:1018-1066 | and no client is let in otherwise |
| SessionVerdicts.FailuresReported | perdition/perdition.c:805-1054 | in every run: what each failed attempt is called to the client, the refusal by the local check included, exactly which outcomes lead there, and whether the server is told to quit |
| SessionVerdicts.AnnouncementMeaning | perdition/perdition.c:955-1006 | with TLS wanted, exactly when a server is taken to have agreed to TLS, in all three protocols |
| SessionVerdicts.RefusedPassword | perdition/pop3_out.c:263-318 | a POP3 server that refuses the password, with status 0, and one that takes it, with status 1 |
| Session.Session.Ask | perdition/perdition.c:773-775 | the answer is that of the protocol on the bytes the buffer and the client hold, and the buffer is empty afterwards |
| Session.Session.CleanUp | perdition/perdition.c:119-134 | bits, credentials and server are reset, the client's connection stays |
| Session.Session.QuitAndGiveUp | perdition/perdition.c:970-978 | the server is told to quit and nothing else, the client is told the reason, and all the server was ever told is in the record of the run |
| Session.Session.UpgradeClient | perdition/perdition.c:793-803 | the bit is set and the connection replaced together |
| Session.Session.FindServer | perdition/perdition.c:815-868 | credentials are looked up only when they are not refused, with tls_listen_force only from a TLS connection; the password is kept |
| Session.Session.CheckLocally | perdition/perdition.c:877-910 | what local authentication tells the client: a refusal if it refuses, and nothing if not |
| Session.Session.SetUpServer | perdition/perdition.c:955-969 | setup depends on the server's bytes alone, and what it sends is one of those few lines |
| Session.Session.AuthenticateServer | perdition/perdition.c:1008-1015 | authentication depends on what the server sends from then on, and sends the credentials of this attempt, over TLS where it is forced |
| Session.Session.Conclude | perdition/perdition.c:1008-1066 | of the status of the authentication, with every refusal: the client is let in exactly when it is positive and not 2 or 3, a new attempt begins exactly for 0, 2 and 3, and the client is written exactly the relayed lines and the OK line, or the failure |
| Session.Session.Serve | perdition/perdition.c:771-1066 | every execution of the loop, however it ends, is a run of the machine, for all three protocols and whatever client, server and network do; it returns success exactly when the last event is the client let in, which by `SessionVerdicts.LetInMeaning` is exactly behind a login the server has accepted; the run tells all that was written to the client and to the last connection to a server, and by `QuitAndGiveUp` and `CleanUp` to those before |

## Left out

- Sockets, OpenSSL, PAM, signals, logging texts, process titles, option parsing and the data base back ends: outside the process or without anything to prove.
- Failed writes, failed allocations and freed memory: every write succeeds, every allocation is there. A failed write in `perdition/pop3_in.c:223-230` would only leave its macro.
- NUL bytes in strings, and an end of input in the middle of a token other than as the end of the stream.
- The fixed buffers of the printf-style writers (`perdition/str.c:169-252`) outside `Acap.ManagesieveWrite`: replies and commands are written whole.
- base64, saslprep, the SASL challenge codec, the word search in a SASL capability and the text of a ManageSieve reply with a response code: functions given from outside.
- What follows a successful login (`perdition/perdition.c:1067-1123`), the greeting before the loop, and the use of the server's own reply as the one to the client (`opt.server_resp_line`).
- A later call of in_get_auth may still find bytes of a failed server in the token buffer: nothing is flushed after a failed setup or authentication, and no claim is made of what such a call parses.
- Capability.DeleteSubstring: needles that share a character with the delimiter, of which the program has none, and a haystack that begins with the needle, where `perdition/str.c:528-531` looks in front of the buffer.
- Capability.AppendSubstringIfMissing: needles that share a character with the delimiter, and an occurrence of the needle nearer to the beginning than a delimiter is long, where `perdition/str.c:575-576` looks in front of the string.
- Offers.Pop3Capability: configured lists that begin with the capability (or, where it is to be added, have it nearer to the beginning than a delimiter is long), at which the edits look in front of the list; so for ManageSieve and IMAP4.
- Offers.ManagesieveCapability: the same lists.
- Unescape.StrReplace: the branch for replacements longer than what they replace (`perdition/str.c:680-691`), which nothing uses.
- Unescape.TokenToString: a token of one quote alone, whose length wraps; `Imap4In` takes it for the empty string.
- ServerPort.StrnAssign: a server that begins with a left bracket no right bracket follows, in a text that holds an address elsewhere, where the program writes through a null pointer, is excluded.
- LdapFilter.GetFilterStr: templates with a percent sign that begins no placeholder, widths beyond an int, and the moment at which a shrinking `realloc` precedes the move; the model's buffer keeps its old room.
- Packet.Packet.Verify: bodies whose length words lead outside the packet, where the program reads on behind the buffer, are excluded.
- Lines.QueueToString: an empty queue, for which the program writes in front of its buffer; a reply without text is taken for the empty string where `perdition/pop3_out.c:95` and `perdition/imap4_out.c:198` meet it.
- Imap4Login.QuotedLogin: a LOGIN that mixes a quoted name with a literal password, or the reverse, is modelled (`Imap4In.LoginPassword` decodes both as the first was sent) but no round trip is claimed.
- Imap4Out.GetCapability: what the capture buffer holds once the tag at its beginning has been cut off (`perdition/imap4_out.c:135-143`), which only `opt.server_resp_line` would look at; its length is modelled.
- IoSelect.Select: `fd_set` pointers that are NULL are empty sets, and the bits of a failed call are not described.
- The queues of tokens, modelled as sequences; the stack buffer of `token_read`, modelled as the sequence gathered so far; tags, which `ImapTag.TagInc` edits in place and the IMAP4 dialogue carries as strings.
- The map lookup, the round-robin choice of a server and its port: an arbitrary answer of found or not, with or without another user name.
