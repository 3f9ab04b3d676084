# Verified models of the daemon's grammars, merges and handshakes

Dafny models of the self-contained logic of the daemon, each proved against a specification, with the
laws a caller relies on proved about that specification.

- **Durations** (`GoDuration*.dfy`): Go's `time.Duration` text form. The grammar as a bijection between
  texts and component lists, the parser's exact range, the printer's canonical spelling, and the round
  trip over all of `i64`. The one binary64 expression is modelled as real arithmetic followed by an
  arbitrary rounding with the properties of IEEE 754 that are used.
- **Env file** (`GoString.dfy`, `GoEscapes.dfy`, `EnvFile.dfy`, `EnvLines.dfy`): Go's quoted string literal and the line scan with its
  assignments, skipped lines and refusal.
- **Routes and config** (`Routes.dfy`, `RouteBits.dfy`, `Prefs.dfy`, `ConfFile.dfy`): the advertised-route set with all its
  errors, and the config merge that must leave the prefs within the same rules.
- **Port ranges** (`PortRange.dfy`): the printer and the parser of a service's protocol and ports.
- **Proxies** (`Socket.dfy`, `BufReader.dfy`, `Socks5.dfy`, `Socks5Wire.dfy`, `HttpHead.dfy`,
  `HttpReply.dfy`, `HttpConnect.dfy`, `HttpReplyBytes.dfy`, `Permits.dfy`): the SOCKS5 and HTTP CONNECT handshakes over a byte stream that may end or be cut at any
  await, the reader that takes more off the socket than it hands out, and the permits of the accept loops.
- **Prefs file** (`AtomicWrite.dfy`): the crash-safe write over a file system with names and files, many
  writers, failures and crashes.
- **Host clean-up and `--tun`** (`HostReap.dfy`, `TunFlag.dfy`): the netstat table and the stale routes
  picked from it; the list of interface candidates.
- **Shared** (`Bytes.dfy`, `Decimal.dfy`, `Utf8.dfy`, `Utf8Laws.dfy`, `Lossy.dfy`, `Text.dfy`, `Words.dfy`): bytes,
  numerals, UTF-8 (RFC 3629, section 4) and the `str` operations of the standard library.

Text is a sequence of bytes. Where the source loops over variables, pushes into a buffer or writes fields,
the model has a method with the same loop or writes, whose postcondition names its whole result; the laws
are lemmas about the specification functions. Tables and branches those functions are built from (units,
escapes, masks, scheme names, reply bytes) are stated once more by literal bytes and numbers, in lemmas that
do not use them. `dafny verify dfyconfig.toml` checks the project.

Where code and documentation disagree, the code is modelled:

- `src/socks5.rs:133-134` says every failure path is answered. A wrong version, a stream that ends early
  and a host name that is not UTF-8 are not (`Socks5.UnansweredExactly`).
- `src/conffile.rs:505-511` says the merge is all-or-nothing. A failing key file is reported after the
  prefs were written (`ConfFile.ErrorAfterWriting`).
- `src/prefs.rs:341-348` says a crash leaves the old file or the new one. That holds while calls for one
  target by one process take turns (`AtomicWrite.NewestIsThere`), and in every run exactly when no two such
  calls with something to write are made and no target is a staging name (`AtomicWrite.AlwaysKeptExactly`).
- `src/httpproxy.rs:200-201` says the headers are consumed so that the tunnel starts at its body. Bytes the
  buffered reader took with the end of the head are dropped with it, so that holds exactly for clients that
  send nothing behind the head before they are answered (`HttpConnect.TunnelCompleteExactly`,
  `HttpConnect.SameSegmentIsLost`).
- `src/httpproxy.rs:244` says a host outside brackets has no colon. The code splits at the last one, so the
  host has a colon exactly when the target has more than one (`HttpHead.BareHostHasColonExactly`,
  `HttpHead.BareHostWithColon`).
- `src/tunflag.rs:252-256` says the entry-level root refusal is met only when the value offers the netstack
  somewhere. For an unprivileged darwin process no entry is usable exactly when the value contains its name
  and no entry is it (`TunFlag.DarwinUnprivileged`, `TunFlag.InsideAnotherEntry`).

## Model

| member | source | states |
|---|---|---|
| GoDurationCanonical.RoundTrip | src/goduration.rs:28-309 | every i64, the minimum included, is parsed back from its printed form, under every rounding the floating-point step may use |
| GoDurationCanonical.FormatInjective | src/goduration.rs:215-276 | no two durations print alike |
| GoDurationCanonical.ParseFormatSettles | src/goduration.rs:28-309 | printing what was parsed and parsing it again changes nothing |
| GoDurationGrammar.ParseExact | src/goduration.rs:28-135 | for every text outside the grammar or with fractions whose power of ten divides the unit: accepted if and only if grammatical and the integer sum of the components is at most 2^63 (minus sign) or 2^63-1, and the value is the signed sum |
| GoDurationUnits.UnitsExactly | src/goduration.rs:93-134 | a number, a fraction whose power of ten divides the unit, and one of the eight unit names given by its bytes and nanoseconds, with either sign or none, read as the signed product if it is within i64 and are refused otherwise |
| GoDurationUnits.WholeUnits | src/goduration.rs:95-109 | so many of each of the eight units, by bytes and literal nanoseconds |
| GoDurationUnits.NoUnitIsMissed | src/goduration.rs:90-92 | a number without a unit is refused for that |
| GoDurationUnits.OtherUnitsAreUnknown | src/goduration.rs:102-108 | a number with any other name is refused with that name |
| GoDurationUnits.WholePrints | src/goduration.rs:228-268 | whole units print as `0s`, `ns`, the micro sign in its two bytes, `ms`, `s`, `m0s` and `h0m0s` |
| GoDurationUnits.NegativePrints | src/goduration.rs:219-225 | a negative duration prints as a minus sign and its magnitude, the minimum included |
| GoDurationGrammar.AcceptedIsGrammatical | src/goduration.rs:28-135 | whatever the fractions, an accepted text is an optional sign and either a bare zero or a component list of the grammar, and its value is that list's sum |
| GoDurationGrammar.LexOfRender | src/goduration.rs:56-109 | every component list is read back from its text, so no text has two readings |
| GoDurationGrammar.RenderOfLex | src/goduration.rs:56-109 | every grammatical text is the text of what is read from it: nothing is dropped |
| GoDurationGrammar.RenderInjective | src/goduration.rs:56-109 | two component lists with one text are the same list |
| GoDurationGrammar.ScanExact | src/goduration.rs:110-124 | the loop's guards refuse no sum in range and let none out of range pass |
| GoDurationLaws.FracExact | src/goduration.rs:114-120 | where the power of ten divides the unit the floating-point expression is integer arithmetic |
| GoDurationLaws.FracBound | src/goduration.rs:114-120 | for a fraction of any length the floating-point expression is non-negative and at most four units, so adding it to an in-range product cannot wrap u64 |
| GoDurationLaws.KeptExactly | src/goduration.rs:176-191 | the fraction digits that are kept are all up to the first the two guards stop at |
| GoDurationLaws.ExactFraction | src/goduration.rs:114-120 | in exact arithmetic a fraction of any kept length up to 22 digits is worth its nanoseconds rounded down |
| GoDurationLaws.ExactRoundingIsOne | src/goduration.rs:114-116 | what is assumed of the rounding can be met, by exact arithmetic for one |
| GoDurationLaws.RoundingDownIsOne | src/goduration.rs:114-116 | and by one that rounds |
| GoDuration.NextSplits | src/goduration.rs:56-109 | one pass cuts a component off the front and stops before a digit or a dot, so on a character boundary |
| GoDurationCanonical.FormatIsCanonical | src/goduration.rs:202-276 | the printed components are the canonical spelling of the magnitude and the only one |
| GoDurationCanonical.CanonicalUnique | src/goduration.rs:202-214 | a list in canonical form (lower units present, minutes and seconds below 60, no trailing zero in a fraction) is what the printer emits for its magnitude |
| GoDurationCanonical.LayoutIsCanonical | src/goduration.rs:226-268 | what the printer emits is in canonical form |
| GoDurationFormat.LayoutWorth | src/goduration.rs:226-268 | the printed components are worth exactly the magnitude |
| GoDurationCanonical.FormatIsUtf8 | src/goduration.rs:273-275 | the printed bytes are well-formed UTF-8, so the conversion to a string cannot fail |
| GoDurationCanonical.FormatFits | src/goduration.rs:226 | at most 25 bytes, within the 32 reserved |
| GoDurationCode.LeadingInt | src/goduration.rs:140-159 | the digit run's value and what follows it, or nothing exactly when the value exceeds 2^63; no u64 step wraps |
| GoDurationCode.LeadingFraction | src/goduration.rs:165-193 | the digits the guards keep, the scale they imply, and the rest after all digits |
| GoDurationCode.ReadNumber | src/goduration.rs:62-82 | the number at the front under its overflow guard |
| GoDurationCode.ParseComponent | src/goduration.rs:56-120 | one pass of the loop: its outcome, its bound, and that the rest is shorter |
| GoDurationCode.ParseGoDuration | src/goduration.rs:28-135 | the loop on u64 variables computes the specified parse, the wrapping negation included |
| GoDurationCode.FmtFrac | src/goduration.rs:282-296 | pushes the trimmed fraction back to front and returns the integer part |
| GoDurationCode.FmtInt | src/goduration.rs:300-309 | pushes the numeral back to front, zero included |
| GoDurationCode.FormatGoDuration | src/goduration.rs:215-276 | the pushes and the final reversal produce the specified text |
| Decimal.ValueIsPlaceSum | src/goduration.rs:140-159 | a digit run is worth its digits each in its place |
| GoDurationLaws.Pow10Known | src/goduration.rs:165-193 | the powers of ten, in digits |
| Decimal.DigitsCanonical | src/goduration.rs:298-309 | a numeral without leading zeros is the one the printer emits for its value |
| GoString.UnquoteExact | src/envknob.rs:278-374 | a literal is accepted if and only if its inside is newline-free and splits into plain characters and valid Go escapes; the result is their decodings in order |
| GoEscapes.UnquoteExactly | src/envknob.rs:278-374 | a quoted value is accepted if and only if it is, between quotes and without a newline, texts each of which is a character or an escape given by its bytes, and it means what they stand for in order |
| GoEscapes.EveryQuoterInverts | src/envknob.rs:298-374 | every byte sequence written by letter escapes, by three octal digits, or by two hexadecimal ones of either case is read back |
| GoEscapes.QuoterInverts | src/envknob.rs:278-294 | and so for any other way to write each byte by an accepted text |
| GoEscapes.RuneReads | src/envknob.rs:332-358 | every scalar value by four or eight hexadecimal digits gives the one character it is |
| GoString.PiecesOfText | src/envknob.rs:287-293 | the split is unique: every valid piece list is read back from its text |
| GoString.TextOfPieces | src/envknob.rs:287-293 | the pieces read make up the whole text |
| GoString.MeaningConcat | src/envknob.rs:287-293 | decoding distributes over concatenation of complete bodies |
| GoString.MeaningShrinks | src/envknob.rs:298-374 | decoding never lengthens the text |
| GoString.PieceKeepsUtf8 | src/envknob.rs:298-374 | each step consumes at least one byte and stops on a character boundary |
| GoString.NextPieceSound | src/envknob.rs:298-374 | what is read at the front is a valid piece and is there |
| GoString.UnquoteInvertsQuote | src/envknob.rs:278-294 | unquoting inverts a reference quoter on every byte sequence |
| GoString.UnquoteChar | src/envknob.rs:298-374 | appends exactly the front piece's decoding and returns its length, or refuses |
| GoString.UnquoteGoString | src/envknob.rs:278-294 | the loop computes the specified unquoting |
| Utf8.EncodeIsOneChar | src/envknob.rs:350-356 | a rune escape appends one well-formed character |
| Utf8.DecodeOfEncode | src/envknob.rs:350-356 | and it is the rune that was named |
| Utf8.EncodeOfDecode | src/envknob.rs:350-356 | every well-formed character is the encoding of exactly one rune, surrogates excluded |
| Utf8Laws.EncodeKeepsOrder | src/envknob.rs:350-356 | and characters sort by bytes as they do by code point, which with the correspondence leaves one encoding |
| EnvLines.PlainValueLine | src/envknob.rs:218-262 | a key, an equals sign and a value that does not start with a quote, white space around either, set the key to that value, further equals signs included; or, with a NUL in either, add exactly one skipped entry |
| EnvLines.QuotedValueLine | src/envknob.rs:233-262 | a value that is a literal sets the key to what it decodes to, or adds the one skipped entry |
| EnvLines.RefusedLine | src/envknob.rs:237-244 | a value that starts with a quote and is no literal is exactly the refusal, with the line |
| EnvLines.SilentLine | src/envknob.rs:220-231 | a blank line, a comment, a line without an equals sign and one with an empty key add nothing |
| Utf8Laws.TrimPadded | src/envknob.rs:220 | trimming takes exactly the white space off both ends |
| Utf8Laws.TrimSplits | src/envknob.rs:220 | every text is white space around its trimmed form |
| Utf8Laws.SpaceExactly | src/envknob.rs:220 | white space is the Unicode list of code points |
| EnvFile.PrefixLaw | src/envknob.rs:216-265 | scanning newline-terminated text followed by more is the first result, then the second with line numbers shifted; after a refusal the rest adds nothing |
| EnvLines.FileInParts | src/envknob.rs:216-265 | the same by parts: a refusal ends the scan; otherwise assignments, skipped entries and refusal of what follows come after, their line numbers raised by the newlines above |
| EnvFile.EveryAssignmentIsSettable | src/envknob.rs:513-520 | every assignment has a non-empty key without `=`, and no NUL in key or value, which is what setting a variable requires |
| EnvFile.EveryLineStaysText | src/envknob.rs:218-233 | on UTF-8 contents every trim and cut falls between characters, so what the unquoter is given is text |
| EnvFile.FileReadsBack | src/envknob.rs:216-265 | a file written with quoted values is read back as exactly its assignments, with nothing skipped or refused |
| EnvFile.LineReadsBack | src/envknob.rs:218-262 | one written line is read back whatever bytes other than NUL its value holds |
| EnvFile.ScanShift | src/envknob.rs:218-219 | line numbers do not influence anything else |
| EnvFile.ParseKeyValueEnv | src/envknob.rs:216-265 | the loop with its pushes and its break computes the specified scan |
| Routes.CalcIsTheSet | src/routes.rs:211-278 | success returns a list if and only if no rule is broken and it is the strictly increasing list, by prefix length then address, of exactly the parsed inputs and the exit-node defaults |
| RouteBits.MaskedByBits | src/routes.rs:224 | the masked prefix is the one of that family and length with every bit behind the prefix clear and every other as it was |
| RouteBits.MaskedExactly | src/routes.rs:225 | a prefix is already masked if and only if every bit behind it is clear |
| RouteBits.MaskAlike | src/routes.rs:224 | two addresses of one length mask alike if and only if they agree in the bits of the prefix |
| RouteBits.ViaExactly | src/routes.rs:62-96 | the 4via6 range and its site ids, by the literal addresses |
| RouteBits.FaultExactly | src/routes.rs:219-236 | a route is good if and only if it is a prefix with clear host bits that is, in the 4via6 range, at least a /96 with a sixteen-bit site; otherwise which error it gets |
| RouteBits.AdvertisedByBits | src/routes.rs:193-278 | what is advertised, by addresses: every prefix may be, both defaults or neither, in order of length, family and address |
| RouteBits.AdvertisedExactly | src/routes.rs:211-278 | success if and only if every route is a prefix that may be advertised and both defaults are named or neither; the list then holds just what the routes and the exit-node flag name |
| RouteBits.ErrorsInOrder | src/routes.rs:214-265 | the errors are those of the routes and then the pairing error |
| RouteBits.PartitionExactly | src/routes.rs:143-156 | the split of the errors by who would refuse, each on its own and in order |
| RouteBits.LoneDefaultExactly | src/routes.rs:254-261 | which pairing error there is, if any |
| Routes.FaultsConcat | src/routes.rs:219-243 | errors and prefixes are collected in input order |
| Routes.IncreasingUnique | src/routes.rs:267-277 | there is only one such list |
| Routes.OkWhen | src/routes.rs:219-265 | success if and only if every route is good on its own and both defaults are named or neither |
| Routes.OnePerRoute | src/routes.rs:219-243 | each input is counted once, as one error or as one prefix |
| Routes.FaultMembers | src/routes.rs:219-243 | an error is reported if and only if some input breaks that rule first |
| Routes.OnlyTheSetMatters | src/routes.rs:193-210 | verdict and list do not depend on order or repetition of the inputs |
| Routes.Advertised | src/routes.rs:77-96 | every advertised prefix is masked, decodes if it is in the 4via6 range, and 0.0.0.0/0 is there if and only if ::/0 is |
| Routes.GoBlockIsGos | src/routes.rs:143-156 | the block reported in Go's words is empty if and only if every entry parses and is masked |
| Routes.CalcAdvertiseRoutes | src/routes.rs:211-278 | the loop, the sort and the dedup compute the specified result, with every error in input order and the pairing error last |
| ConfFile.JudgedIsWritten | src/conffile.rs:550-589 | the routes and the exit-node flag that are judged are the ones written |
| ConfFile.MergedRoutesAreAdvertisable | src/conffile.rs:653-697 | after every merge that writes, the prefs hold an advertisable route set |
| ConfFile.ApplyIsIdempotent | src/conffile.rs:498-738 | applying the same config again gives the same answer and changes nothing |
| ConfFile.MergesCompose | src/conffile.rs:653-727 | two configs applied in turn write what their overlay writes |
| ConfFile.ConnectionExactly | src/conffile.rs:653-677 | for every config and all prefs, the connection prefs become the only ones in which each absent key has kept its pref and each present key has written its value, the node being on unless turned off |
| ConfFile.ServicesExactly | src/conffile.rs:675-727 | likewise for the service prefs, an empty operator name meaning none |
| ConfFile.MergeExactly | src/conffile.rs:645-727 | likewise for the whole merge, the prefs without a key being as they were |
| ConfFile.MergeChangesExactly | src/conffile.rs:645-727 | a merge changes the prefs if and only if the node is not already as the config has it or some present key differs from its pref |
| ConfFile.NoEmptyUpdatePromise | src/conffile.rs:635-643 | on a host that cannot update itself no config sets the auto-update promise |
| ConfFile.ErrorAfterWriting | src/conffile.rs:728-738 | an error with changed prefs happens if and only if every check passes, the key file cannot be used, and the node is not already as the config has it or some present key differs from its pref |
| ConfFile.ErrorAfterWritingHappens | src/conffile.rs:728-738 | a concrete config on which it does, so the merge is not all-or-nothing |
| ConfFile.CheckExactly | src/conffile.rs:512-643 | the checks pass if and only if the scheme is http or https, the routes may be advertised, the exit node is named and not by `auto:`, and no update is promised in vain; otherwise the first of these that fails is the error |
| ConfFile.AnswerExactly | src/conffile.rs:733-759 | the answer holds no key if and only if the checks pass and the config has none; and a key if and only if they pass and the config names it, as it is or by a file whose trimmed contents it is |
| ConfFile.Validate | src/conffile.rs:512-643 | the checks in source order return the first refusal and write nothing |
| ConfFile.WriteConnection | src/conffile.rs:653-677 | these fields are written where their key is present, and only they |
| ConfFile.ApplyToPrefsGated | src/conffile.rs:498-738 | the two phases on mutable prefs: the answer and the whole new state |
| Prefs.ResetForgetsExactly | src/prefs.rs:298-337 | the reset changes none of the fields it is documented to keep and forgets all the others |
| Prefs.FreshNode | src/prefs.rs:242-274 | the default of every pref |
| Prefs.Prefs.ResetUpManagedToDefault | src/prefs.rs:313-337 | the assignments leave exactly the reset value |
| Decimal.ParseOfDigits | src/localapi.rs:1816-1836 | a printed numeral is what the unsigned readers accept, if it is within the type; used for protocols, ports, prefix lengths and octets |
| PortRange.RoundTrip | src/localapi.rs:1751-1846 | every ordered range is parsed back from its printed form |
| PortRange.ParseExactly | src/localapi.rs:1775-1846 | a text is accepted as a range if and only if its lower case is one of the spellings: ports alone, or a protocol by name, number or `*`, a colon, and ports |
| PortRange.PrintedText | src/localapi.rs:1751-1773 | how each range prints, part by part |
| PortRange.RefusedFor | src/localapi.rs:1804-1843 | which error a text around its last colon gets |
| PortRange.RefusedAlone | src/localapi.rs:1788-1843 | and a text without a colon |
| PortRange.LowerExactly | src/localapi.rs:1791 | which bytes change case, and to what |
| PortRange.NamesByText | src/localapi.rs:1712-1726 | the thirteen names and their numbers, and no others |
| Decimal.ParseUnsignedExactly | src/localapi.rs:1816-1836 | an unsigned reader accepts an optional plus sign, leading zeros and the numeral of a number within the type, and nothing else |
| PortRange.ParsePrintSettles | src/localapi.rs:1751-1846 | for every accepted text, printing and parsing again changes nothing, across case, numeric protocols, `*` and full spans |
| PortRange.AcceptedIsOrdered | src/localapi.rs:1820-1844 | an accepted text has its ports in order |
| PortRange.CaseInsensitive | src/localapi.rs:1791 | case does not matter |
| PortRange.TableIsABijection | src/localapi.rs:1712-1726 | the protocol table reads the same from both sides |
| PortRange.SingleTcpPortByText | src/localapi.rs:1740-1748 | a range is one TCP port if and only if it prints as that port, bare or behind `tcp:` |
| Socks5.EncodedReads | src/socks5.rs:179-273 | a no-auth greeting and a CONNECT request in the encoding of RFC 1928, sections 3 and 4, are understood, and no byte behind them is consumed |
| Socks5.ReadsEncoded | src/socks5.rs:179-273 | only those encodings are understood as a connect |
| Socks5Wire.SentBytes | src/socks5.rs:46-68 | those encodings, by the bytes of RFC 1928 |
| Socks5Wire.AnsweredBytes | src/socks5.rs:54-61 | every answer byte for byte: 255 without no-auth; replies 7, 8, 1, 4 and 0 of ten bytes, each for its cause |
| Socks5Wire.TakenOnFailure | src/socks5.rs:179-273 | how much of a failing stream is taken, for each way it fails |
| Socks5.NegotiateMethod | src/socks5.rs:179-209 | one method selection is sent, or none, or an interrupted part of it, as the greeting demands |
| Socks5.ReadConnectRequest | src/socks5.rs:214-273 | the destination if and only if the request is readable; otherwise at most one refusal, never success |
| Socks5.HandleConnection | src/socks5.rs:135-174 | for every stream, dial outcome and interruption: what was sent is a prefix of the one answer, the dial precedes any success byte, and the splice is reached only after the complete success reply |
| Socks5.UnansweredExactly | src/socks5.rs:133-134 | a client hears nothing about its request if and only if its bytes are a greeting cut short or of another version, or, after no-auth was offered, a request cut short in header, address or port, of another version, or with a host that is not UTF-8 |
| Socks5.UnansweredHappens | src/socks5.rs:133-134 | three such requests: of another version, cut short, and with a host that is not UTF-8 |
| Permits.Conserved | src/socks5.rs:99-128 | the bookkeeping invariant: free permits and live handlers always add up to 256, and everyone who came was served or refused |
| Permits.RefusedExactly | src/socks5.rs:108-111 | a client is refused if and only if 256 handlers run, and a refusal changes nothing else |
| Permits.RefusesNobodyExactly | src/httpproxy.rs:75-102 | nobody is refused if and only if the server without a cap would never run more than 256 handlers, and then both run the same ones |
| Permits.Proxy.Serve | src/socks5.rs:99-128 | the loop follows the model, and after the shutdown every permit is back |
| HttpHead.AuthorityExactly | src/httpproxy.rs:232-251 | a target is read if and only if it is `host:port` or `[host]:port` with a non-empty host and a port from 1 to 65535 |
| HttpHead.BareHostHasColonExactly | src/httpproxy.rs:243-250 | for an accepted target that does not open with a bracket, the host has a colon if and only if the target has more than one |
| HttpHead.BareHostWithColon | src/httpproxy.rs:243-250 | a concrete such target, `a:b:80` |
| HttpHead.AuthorityReadsBack | src/httpproxy.rs:232-251 | every host and port is read back from its spelling |
| HttpHead.DrainHeaders | src/httpproxy.rs:256-273 | succeeds if and only if the first blank line ends within 65536 bytes or the stream ends below that without one, and has then consumed exactly that much |
| HttpHead.DrainsOnce | src/httpproxy.rs:256-273 | how much is drained is determined |
| HttpHead.ReadLineCapped | src/httpproxy.rs:277-290 | the next line when it fits the cap, otherwise an error after at most one byte more |
| HttpReply.SanitizedIsSafe | src/httpproxy.rs:301-308 | the header value is plain text of at most 256 characters without control characters or surrounding white space |
| HttpReplyBytes.SanitizedChars | src/httpproxy.rs:301-308 | what is trimmed is the first 256 characters, each control character a space and every other one itself |
| HttpReplyBytes.ControlExactly | src/httpproxy.rs:303 | a control character, by its code point |
| HttpReplyBytes.ReplyBytes | src/httpproxy.rs:312-336 | every reply by its status line, headers and body, the length header giving the body's length |
| HttpReplyBytes.AnsweredBy | src/httpproxy.rs:138-228 | which reply answers what |
| HttpReply.SanitizeKeepsExactly | src/httpproxy.rs:301-308 | an error text is left as it is if and only if it is already of that kind |
| HttpReply.ConnectErrorLines | src/httpproxy.rs:312-320 | the failure reply has exactly its four header lines and the blank line, whatever the error says |
| HttpReply.HeadLines | src/httpproxy.rs:312-320 | a head of lines is read back as those lines |
| HttpConnect.ConnectReads | src/httpproxy.rs:138-228 | a CONNECT for any host and port with any headers is understood, and the head reader hands out its whole head and nothing behind it |
| HttpConnect.LineDecides | src/httpproxy.rs:144-228 | what a request line of three words decides: another method, a bad target, a head over the limit, or a connect |
| HttpConnect.FewWords | src/httpproxy.rs:151-157 | and one of no word, or of CONNECT alone |
| HttpConnect.NoLineDecides | src/httpproxy.rs:144-150 | and no line, or one over the limit |
| HttpConnect.HandleRequestHead | src/httpproxy.rs:138-228 | for every stream, arrival, dial outcome and interruption: what was sent is a prefix of the one answer, the tunnel is reached only after a successful dial and the complete success line, and the socket then stands behind the fill that brought the end of the head |
| HttpConnect.Route | src/httpproxy.rs:153-228 | the dispatch on the method and the CONNECT path, with the same promises for one request line |
| HttpConnect.DialAndReply | src/httpproxy.rs:203-227 | the dial, then the reply it calls for |
| HttpConnect.TunnelCompleteExactly | src/httpproxy.rs:200-216 | the tunnel carries all the client sent behind its head, however it arrived, if and only if none of it was sent before the answer |
| HttpConnect.WaitingClientLosesNothing | src/httpproxy.rs:200-216 | a client that waits for the answer loses nothing |
| HttpConnect.SameSegmentIsLost | src/httpproxy.rs:212-216 | what comes in one segment with the head does not reach the tunnel |
| BufReaders.NothingExtraExactly | src/httpproxy.rs:142 | nothing beyond what was needed is ever taken off the socket, however it arrives, if and only if nothing more was there |
| BufReaders.TakenRange | src/httpproxy.rs:142 | what is taken beyond need is less than one buffer |
| BufReaders.TakenOnce | src/httpproxy.rs:142 | how the stream arrives determines what is taken |
| BufReaders.BufReader.ReadUntil | src/httpproxy.rs:283-284 | the loop over the buffer returns the next line or the first bytes of it, and took only what a needed fill brought |
| Lossy.AsciiOnlyFromItself | src/httpproxy.rs:288 | lossy decoding yields ASCII text only from that text, so no other line passes for the blank one |
| Lossy.BadLenExactly | src/httpproxy.rs:288 | each piece that is replaced is the longest that begins a character, or one byte |
| Lossy.OneReplaced | src/httpproxy.rs:288 | well-formed text stays and the ill-formed piece behind it becomes the replacement character |
| Lossy.AlwaysValid | src/httpproxy.rs:288 | lossy decoding yields well-formed text |
| AtomicWrite.NewestIsThere | src/prefs.rs:349-384 | for any number of calls of which clashing ones take turns, wherever the run is cut off: every file but the staging ones holds the complete bytes of the call that returned success for it last, or what it held at first |
| AtomicWrite.OldOrNew | src/prefs.rs:349-384 | hence the bytes of a call that returned success or the old ones, never a part |
| AtomicWrite.OneAfterAnother | src/prefs.rs:349-384 | two saves of one target by one process, the second after the first has returned, take turns |
| AtomicWrite.AlwaysKeptExactly | src/prefs.rs:340-375 | every target is old or new in every run, whatever the interleaving, failures and crash, if and only if no target is a staging name and no two calls with something to write share process and target |
| AtomicWrite.OneWriter | src/prefs.rs:349-384 | for one writer: new bytes if and only if it returned success, old bytes at any crash before and after every error, no other file touched |
| AtomicWrite.SharedStagingLoses | src/prefs.rs:369-375 | any two calls of any list that share process and target, the first with something to write, have a run in which it returns success over an empty target |
| AtomicWrite.StagingOnTargetLoses | src/prefs.rs:369-375 | a target that is another call's staging name has a run that loses it |
| AtomicWrite.TmpInjective | src/prefs.rs:369-375 | the staging name tells exactly the target and the process |
| AtomicWrite.TmpName | src/prefs.rs:366-375 | the staging name is the target's with `.tmp.` and the process number |
| AtomicWrite.Disk.AtomicWrite | src/prefs.rs:365-384 | success if and only if the open, the whole write and the rename succeed; the effects in source order are a run of the model; the staging file is gone unless its removal failed |
| AtomicWrite.Disk.Save | src/prefs.rs:349-355 | old or complete new bytes, as the answer says |
| HostReap.DestinationExactly | src/hostreap.rs:356-381 | a destination is read if and only if it is `default` or one to four octets with the length elided or explicit |
| HostReap.AbbreviationReadsBack | src/hostreap.rs:348-381 | every IPv4 prefix is read back from netstat's abbreviation |
| HostReap.ParseDestination | src/hostreap.rs:356-381 | the octet array and its counter compute the specified reading, with no index out of range |
| HostReap.TableReadsBack | src/hostreap.rs:327-347 | a printed table gives back its entries in order, whatever the gaps and trailing columns |
| HostReap.TableConcat | src/hostreap.rs:327-347 | what stands above a line does not change how it is read |
| HostReap.ParseNetstatInet | src/hostreap.rs:327-347 | the loop with its pushes computes the specified table |
| HostReap.StaleExactly | src/hostreap.rs:388-404 | a row is picked, as often as it occurs, if and only if it has the engine's shape and its interface is gone |
| HostReap.StaleConcat | src/hostreap.rs:398-404 | rows are kept or dropped each on its own, in order |
| TunFlag.ResolveWith | src/tunflag.rs:176-218 | the two refusals of the whole value, else the first usable entry, else every entry with its reason in order |
| TunFlag.ResolvesOnce | src/tunflag.rs:176-218 | a value resolves in one way only |
| TunFlag.FallbackAlwaysResolves | src/tunflag.rs:176-218 | with the netstack appended, any value resolves on any host, and the end is taken only when nothing before it is usable |
| TunFlag.FallbackChangesNothing | src/tunflag.rs:176-218 | appending it does not change what already resolves |
| TunFlag.TunNeedsBuildAndRoot | src/tunflag.rs:227-268 | a kernel device implies the build feature and, on darwin, root, and is one of the entries |
| TunFlag.CandidateExactly | src/tunflag.rs:227-268 | what each entry is and why not, by name, build, system and uid |
| TunFlag.WholeRefusals | src/tunflag.rs:187-199 | exactly when each of the two refusals of the whole value is given |
| TunFlag.ContainsExactly | src/tunflag.rs:114-117 | the early check looks anywhere in the value |
| TunFlag.DeviceIsGiven | src/tunflag.rs:227-268 | a usable device entry is given |
| TunFlag.DarwinUnprivileged | src/tunflag.rs:114-118 | for an unprivileged darwin process a value resolves if and only if the netstack is one of its entries, is refused as a whole if and only if it does not contain that name, and is refused entry by entry otherwise |
| TunFlag.InsideAnotherEntry | src/tunflag.rs:110-118 | naming it inside another entry passes the early check and is refused all the same |

## Left out

- Binary64 rounding of a duration fraction whose power of ten does not divide the unit: a parameter of the
  parser, so such texts are only bounded; an overflow of the scale's exponent is not modelled.
- The loop body of the duration parser, the two branches of the printer and the SOCKS5 request reader are
  split into methods.
- The prefs are one mutable object holding three records instead of one flat struct.
- The prefix parser, the URL parser, file reads and the reason a host cannot update itself are parameters;
  reading the config file and the warnings about keys without a pref are not modelled.
- Reading env files from disk, choosing among them, and setting the variables.
- The text of an IPv4 or IPv6 address a SOCKS5 client names: the destination keeps its octets.
- The overlay dialer is a parameter, asked once; the splice, the sockets, timers and the runtime are left
  out, a deadline or a socket failure being a cut at some await.
- How a client's stream arrives at the HTTP proxy is a parameter: how much it sends before it is answered,
  and in which segments. `handle_request_head` and `handle_connect` are three methods.
- Permits.Conserved: that the end of a handler, however it ends, drops the permit it owns is what the exit
  event means, not something derived.
- The fixed sentences in the bodies of the 400, 500 and 501 replies are parameters; message texts of all
  errors are reduced to their kinds.
- The durability of a write across a power failure: neither the data nor the directory is synced by the
  code, and the model's crash keeps every effect that was made.
- AtomicWrite.AlwaysKeptExactly: files with two names are not modelled.
- The removal of routes and the resolver key on a live host, and the commands that do it.
- `src/debugserver.rs` (the same accept loop with a smaller cap), the wire types of `src/localapi.rs`, and
  branch-level decisions such as `src/auth.rs` and `src/featureknob.rs`.
