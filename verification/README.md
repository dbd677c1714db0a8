# iron-proxy, verified

A Dafny model of the parts of iron-proxy, an egress proxy that holds the secrets a sandbox must not see, whose
correctness rests on an argument over every input, every chunking or every interleaving. `dafny verify dfyconfig.toml`
checks the whole project.

**The streaming response scrubber.** A response must not carry a secret in any spelling. `Utf8`, `Tokens` and
`TokenLaws` hold the tokenizer, with its third answer "need more bytes"; `Matcher` the matcher for one needle; `Grammar`
and `NeedleGrammar` say, without the tokenizer, which texts spell a character or a needle, and the two are shown to
agree. `Printer` writes a replacement in the spelling of the match and is inverted by the tokenizer; `HexCases` does the
same for letter case. `Reference` says what scrubbing a whole body means: leftmost, longest, every needle tried at every
position. `Tables` builds the prefilters, `Scanner` is the incremental scan, `Stream` the reader. The main result is
that neither the tables, nor the chunks, nor the caller's buffers ever show: what is delivered is the reference scrub of
the body. `HeldBound` shows that the bound on held bytes is reached, `Alignment` does the base64 and base32 arithmetic
at bit level, `Replacing` tells the bytes a scrub copies from those it replaces, and `EncodedMatch` shows that the first
byte of a secret's fragment inside encoded data is never copied, and none of the fragment unless an earlier match
overlaps it. `Encodings` has the transforms as they are, with the alphabets of RFC 4648. `OwnText` says exactly when a
needle matches its own bytes, which is not obvious of one that holds `%`, `\` or `&`, and `Pairs` ties it all to the
pairs a scrubber is built from: what is written for a match of a pair is that pair's replacement.

**The PostgreSQL policy.** `SqlAst` and `SqlClassifier` hold the classifier, recursive through routine bodies and
through SQL embedded in PL/pgSQL; `SqlMemo` the imperative code with the memo in front of it; `SqlPolicy` proves the
verdict exact against an independent account of what a text may change, `SqlCases` reads the verdict and its reason off
the messages of a text in their order, and `SqlOrder` shows that no order of traversal matters to whether a text is
rejected. `PgRelay` is the relay as a step system over both threads, and `PgSession` puts setup, relay and server
together: over every run the role and the pinned settings keep what setup gave them. `PgServer` is a server that runs
prepared texts and routines defined earlier, at any depth of calls, and shows that the same holds of it.

**Protocols under interleaving.** `PrivateFence` (pipeline swap and private connections), `Pending` (held requests and
the reload that installs their secret), `Breaker` (the judge's circuit breaker) and `SecretCache` (the lazy TTL cache)
are step systems; theorems are about every run, and a class beside each holds the code, proved to take those steps.

**Framers and encodings.** `WebSocket` reads wstunnel's framing (sections 5.4 and 5.5 of RFC 6455), `Sse` reads,
rewrites and filters server-sent events (section 9.2 of the WHATWG HTML standard), and `Fingerprint` is the credential
fingerprint with the token source it guards.

## What turned out otherwise than the comments say

- A value that holds a literal escape "still matches itself" (internal/transform/secrets/scrub.go:508-511), and so would
  any byte string (line 158): `a%25b` does not match `a%25b`. Its `%25` is taken for its `%`, the `2` is then missing, and
  the literal reading is not tried because `a` starts no escape. `OwnTextMissed` exhibits it, `MatchesOwnText` and
  `OwnTextHitsIff` say exactly which needles match themselves.
- A reload "fences revoked sockets before ACK" (internal/transform/private_ips.go:38): a connection in the middle of its
  own `Close` has left the map and not yet the socket, so a reload in that window misses it. `CloseWindow` exhibits it;
  `ReloadRevokesIff` says, from the state in which the reload takes the lock, that this is the only exception.
- Between a rejected Parse and the next Sync everything is said to be ignored (internal/postgres/session.go:303-307): a
  Parse that passes the policy still goes up. `Exchange` says exactly what does.
- Re-reading a rewritten event gives back its payload only if no line of it ends in a carriage return: `RewriteRoundTrip`.
- The section marker keeps headers from colliding with credentials (internal/transform/oauth/grant.go:98-100) as long as
  no credential is called like the marker; and length prefixes rule out collisions (lines 124-127) below 2^32 bytes.
  `TellsApartIff` says exactly when; for one entry, whose names are fixed, `ValuesAreTracked` needs no such condition.
- Half-open admits a single probe per half-open period, not per breaker: `TwoProbes`, and `SingleProbe` for when it does.

## Model

| member | source | states |
|---|---|---|
| `Utf8.DecodeEncode` | internal/transform/secrets/scrub.go:247-266 | decoding undoes encoding for every scalar, whatever bytes follow |
| `Utf8.EncodeDecode` | internal/transform/secrets/scrub.go:247-266 | encoding undoes decoding for every byte string, valid UTF-8 or not |
| `Utf8.FullRuneStable` | internal/transform/secrets/scrub.go:278-307 | once a rune is complete, later bytes do not change how it reads |
| `Utf8.DecodeRunes` | internal/transform/secrets/scrub.go:247-259 | the loop yields the runes of the bytes, a raw byte standing for itself |
| `Utf8.EncodeRunesInvertsRunes` | internal/transform/secrets/scrub.go:247-266 | turning bytes into runes loses nothing |
| `Tokens.ReadHex` | internal/transform/secrets/scrub.go:323-338 | value and first letter case of a digit run, or that it is bad, or that data ran out, as the recursive definition has it |
| `Tokens.ReadPercent` | internal/transform/secrets/scrub.go:341-394 | the escape loop agrees with the definition by whole runs: one UTF-8 sequence is one character, else one escape is one byte |
| `Tokens.ReadReference` | internal/transform/secrets/scrub.go:443-490 | the loops over digits and letters agree with the recursive definition, bounds on digits and code point included |
| `TokenLaws.PercentEscapeStable` | internal/transform/secrets/scrub.go:341-394 | an answer other than "more" survives appended bytes |
| `TokenLaws.BackslashEscapeStable` | internal/transform/secrets/scrub.go:400-437 | an answer other than "more" survives appended bytes, surrogate pairs included |
| `TokenLaws.ReferenceEscapeStable` | internal/transform/secrets/scrub.go:443-490 | an answer other than "more" survives appended bytes |
| `TokenLaws.ReadTokenStable` | internal/transform/secrets/scrub.go:278-307 | a token once read is the token of every longer body, final or not |
| `Tokens.ReadToken` | internal/transform/secrets/scrub.go:278-307 | "more" is said only of non-final data shorter than maxToken; a token is at least one byte and at most maxToken |
| `Grammar.TokenComplete` | internal/transform/secrets/scrub.go:278-490 | every spelling of a scalar in the grammar is read as that scalar, exactly to its end |
| `Grammar.TokenSound` | internal/transform/secrets/scrub.go:278-490 | what is read as a scalar is a spelling of it, or a lone byte that starts no escape there |
| `Grammar.DigitsAre` | internal/transform/secrets/scrub.go:309-321 | the hex digits and their values, in either case, and the decimal ones among them |
| `Grammar.ShortEscapesAre` | internal/transform/secrets/scrub.go:400-437 | the short escapes are the eight of JSON strings, each with its character |
| `Grammar.NamesAre` | internal/transform/secrets/scrub.go:443-490 | the references by name are amp, lt, gt, quot and apos, each with its character |
| `Grammar.DecimalsAre` | internal/transform/secrets/scrub.go:443-490 | a decimal reference has one to seven digits, and names the character they denote |
| `Grammar.HexNumbersAre` | internal/transform/secrets/scrub.go:443-490 | a hex reference has an x of either case and one to six digits, and names the character they denote |
| `Matcher.FindRuneAt` | internal/transform/secrets/scrub.go:516-554 | the inner loop finds the next character past at most maxGap format characters, as the recursive search does |
| `Matcher.MatchAt` | internal/transform/secrets/scrub.go:512-557 | the nested loops compute the recursive match, with the recorded spellings |
| `Matcher.MatchFromStable` | internal/transform/secrets/scrub.go:512-557 | a decided match is unchanged by appended bytes and by finality |
| `Matcher.MatchFromBounds` | internal/transform/secrets/scrub.go:512-557 | a match of n characters spans at most 12n + 192(n-1) bytes with n recorded spellings; an undecided one is shorter |
| `NeedleGrammar.MatchComplete` | internal/transform/secrets/scrub.go:512-557 | every text of the needle grammar at a position is matched, to its end |
| `NeedleGrammar.MatchSound` | internal/transform/secrets/scrub.go:512-557 | whichever proper characters the needle holds, and with escapes read or not, everything matched is a text of the needle grammar |
| `NeedleGrammar.MatchIffNeedleText` | internal/transform/secrets/scrub.go:341-557 | the matcher accepts exactly where a text of the spelling grammar starts, and that text's end is unique |
| `NeedleGrammar.MatchRecords` | internal/transform/secrets/scrub.go:512-557 | the spellings recorded are, in order, how each character of the match is spelled in the data |
| `OwnText.ScalarsReadAsThemselves` | internal/transform/secrets/scrub.go:247-266 | a needle of proper characters reads as itself in its own bytes, whatever follows |
| `OwnText.BytesReadAsThemselves` | internal/transform/secrets/scrub.go:247-266 | any byte string, valid UTF-8 or not, reads as its own characters when nothing follows |
| `OwnText.MatchesOwnText` | internal/transform/secrets/scrub.go:508-557 | a needle matches its own bytes, to their end: always when escapes are not read, and when they are if and only if none of its escape starts begins an escape for that very character |
| `OwnText.HitSound` | internal/transform/secrets/scrub.go:677-746 | whatever is replaced is a text of the needle grammar, escape starts in the needle or not |
| `OwnText.OwnTextHits` | internal/transform/secrets/scrub.go:677-746 | where the bytes of a needle stand something is replaced, among any needles, if it starts with an escape start or does not escape itself |
| `OwnText.OwnTextIsReplaced` | internal/transform/secrets/scrub.go:677-746 | so at every such place of every body the first byte is replaced, in a match that begins there or before |
| `OwnText.OwnTextHitsIff` | internal/transform/secrets/scrub.go:508-746 | for a needle alone and its bytes alone that condition is necessary too |
| `OwnText.OwnTextMissed` | internal/transform/secrets/scrub.go:508-557 | the needle `a%25b` does not match its own bytes |
| `Printer.SpellSpells` | internal/transform/secrets/scrub.go:614-669 | what is written for a character is one of its spellings in the grammar |
| `Printer.CanSpellMeans` | internal/transform/secrets/scrub.go:614-669 | percent escapes, unicode escapes and numeric references are used for every proper character, hex escapes for ASCII, short escapes and names for those in their tables, and nothing is left literal that its form can spell |
| `Printer.DigitsAreShort` | internal/transform/secrets/scrub.go:649-660 | numbers are written without a zero in front |
| `Printer.ReadInvertsSpell` | internal/transform/secrets/scrub.go:614-669 | the tokenizer reads back the character, the width and the form, whatever follows, unless the character starts an escape and the form cannot spell it |
| `Printer.ReadInvertsSpellAlone` | internal/transform/secrets/scrub.go:614-669 | read by itself, what is written for any scalar in any form is that scalar, to its end and in the form used |
| `Printer.EscapeStartReadsBack` | internal/transform/secrets/scrub.go:614-669 | an escape start in a form that cannot spell it is read back exactly when no spelling of the grammar starts there with what follows, and what is read is a proper character |
| `Printer.Tally` | internal/transform/secrets/scrub.go:569-583 | one pass gives the first spelling of each rune and class and the first case of each form |
| `Printer.SpellingTaken` | internal/transform/secrets/scrub.go:568-602 | a character of the match takes its first occurrence's spelling; another that of the first of its class, else of the first letter or digit, else of the first character |
| `Printer.EncodeReplacement` | internal/transform/secrets/scrub.go:568-602 | appends the replacement, each character in the spelling the match assigns it |
| `Printer.ReadInvertsReplacement` | internal/transform/secrets/scrub.go:568-669 | decoding a written replacement token by token gives its characters in their forms, then whatever follows |
| `HexCases.TokenCase` | internal/transform/secrets/scrub.go:278-490 | the case recorded for a token is that of the first hex letter in its text, and none for forms without hex |
| `HexCases.ReadInvertsCase` | internal/transform/secrets/scrub.go:614-669 | a written escape reads back with the case it was written in, or none if it has no hex letter |
| `HexCases.NoCaseTaken` | internal/transform/secrets/scrub.go:580-595 | no case is imposed exactly when the match showed none in that form |
| `HexCases.CaseTaken` | internal/transform/secrets/scrub.go:580-595 | otherwise a replacement's escapes take the case of the first character of the match that showed one in that form |
| `HexCases.CapitalsTaken` | internal/transform/secrets/scrub.go:584-602 | a character is written as a capital exactly when the needle folds case and the first character that showed a case in that form showed a capital |
| `HexCases.ClassMeans` | internal/transform/secrets/scrub.go:604-612 | the classes are letters and digits, the other characters a URL need not escape, and the rest |
| `Printer.WrittenIsReplacement` | internal/transform/secrets/scrub.go:568-602 | each character written is the replacement's, or for fold needles its capital, and for ASCII the same up to case |
| `Printer.PlainReplacementIsLegible` | internal/transform/secrets/scrub.go:568-669 | replacements free of `%`, `\` and `&` can always be read back |
| `Printer.PrintParse` | internal/transform/secrets/scrub.go:278-669 | for every list of spellings, decoding what was written token by token gives the replacement's characters, up to case for fold needles |
| `Printer.PrintParseExact` | internal/transform/secrets/scrub.go:278-669 | without folding it gives exactly the replacement |
| `Reference.LongestIsLongest` | internal/transform/secrets/scrub.go:711-731 | the needle chosen matches, none matches longer, and none before it as long |
| `Reference.PlainHit` | internal/transform/secrets/scrub.go:677-746 | for plain needles a position is left alone exactly when no needle matches there |
| `Reference.ScrubIsNaive` | internal/transform/secrets/scrub.go:677-746 | for plain needles the scrub is the one and only leftmost-longest replacement that tries every needle everywhere |
| `Replacing.CopiedOrReplaced` | internal/transform/secrets/scrub.go:677-746 | every byte of a body is copied or lies inside a replaced match, and none is both |
| `Replacing.OutputAt` | internal/transform/secrets/scrub.go:677-746 | where the scrub stops the output splits into what came before, the byte or the text of the match, and the scrub of the rest |
| `Replacing.HitIsReplaced` | internal/transform/secrets/scrub.go:677-746 | a byte at which some needle matches is never copied, stopped at or not |
| `Tables.AddHead` | internal/transform/secrets/scrub.go:215-235 | registers one head character in the index, the start table and the pair table, and touches nothing else |
| `Tables.AddNeedle` | internal/transform/secrets/scrub.go:204-236 | tables that mean what the needles are still do with one needle more |
| `Tables.NewScrubber` | internal/transform/secrets/scrub.go:197-238 | the tables mark a byte, a pair or a head character exactly when some needle calls for it, and the needles are those of the pairs, as `Pairs.NeedlesArePairs` spells out |
| `Pairs.NeedlesArePairs` | internal/transform/secrets/scrub.go:197-208 | the needles are the pairs with something to find, one for one and in order: each with the bytes its pair looks for, those it puts there, and its folding |
| `Pairs.PairIsWritten` | internal/transform/secrets/scrub.go:568-746 | where the scrub stops on a match of a pair without folding, whose replacement is proper text free of `%`, `\` and `&`, what it writes reads back as that replacement |
| `Pairs.WrittenInOwnBytes` | internal/transform/secrets/scrub.go:568-602 | a match spelled in its own bytes is replaced by the bytes of the replacement |
| `Pairs.WrittenInCapitals` | internal/transform/secrets/scrub.go:568-602 | a match of a fold needle spelled literally and in capitals is replaced by the replacement in capitals |
| `Pairs.WrittenInForm` | internal/transform/secrets/scrub.go:568-669 | a match spelled in one form throughout is replaced in that form, except for characters the form cannot spell |
| `Pairs.OwnTextIsExchanged` | internal/transform/secrets/scrub.go:197-746 | scrubbing the bytes of a pair's needle and any rest gives the bytes of its replacement and the scrub of the rest, unless the needle escapes itself |
| `Pairs.BodyIsExchanged` | internal/transform/secrets/scrub.go:155-746 | a body that is a pair's needle, whatever bytes that is, becomes its replacement unless the needle escapes itself, and is found at all if and only if it does not or starts with an escape start |
| `Pairs.PairIsReplaced` | internal/transform/secrets/scrub.go:197-746 | wherever the bytes of a pair's needle stand in a body, under that condition, their first byte is replaced |
| `Pairs.SecretIsReplaced` | internal/transform/secrets/scrub.go:69-746 | with the pairs listed for a secret, this holds of the secret itself |
| `Scanner.ConsiderDecides` | internal/transform/secrets/scrub.go:705-727 | the next-byte shortcut and the literal-pass filter never change a candidate's answer |
| `Scanner.TryAllDecides` | internal/transform/secrets/scrub.go:711-731 | trying the indexed candidates alone finds the longest match of all needles |
| `Scanner.AttemptDecides` | internal/transform/secrets/scrub.go:688-736 | a position that leaves nothing open is decided as in the whole body |
| `Scanner.MayStartLosesNothing` | internal/transform/secrets/scrub.go:189-195 | where the byte tables say no, no needle matches, whatever follows |
| `Scanner.ScanIsScrub` | internal/transform/secrets/scrub.go:677-746 | what a scan delivers, and then the scrub of the tail it held with whatever follows, is the scrub of everything |
| `Scanner.HeldIsBounded` | internal/transform/secrets/scrub.go:671-746 | at most 11 bytes are held, or at most 204(n-1)+11 for some needle of n characters |
| `HeldBound.HeldBoundIsReached` | internal/transform/secrets/scrub.go:671-746 | for every n a chunk is held of exactly 204(n-1)+11 bytes |
| `Scanner.TryCandidates` | internal/transform/secrets/scrub.go:711-727 | the candidate loop computes the fold over candidates, longest match and open flag |
| `Scanner.TryPosition` | internal/transform/secrets/scrub.go:688-731 | the readings tried at a position, with escapes and then literally |
| `Scanner.ScanChunk` | internal/transform/secrets/scrub.go:677-746 | the index loop with its copied gaps computes the recursive scan, appended to dst |
| `Stream.DeliveredIsScrub` | internal/transform/secrets/scrub.go:773-790 | chunk independence: however a body is split, the scans together deliver its scrub |
| `Stream.ScrubReader.constructor` | internal/transform/secrets/scrub.go:769-771 | a new reader has the scrub of the whole body still to deliver |
| `Stream.ScrubReader.Fill` | internal/transform/secrets/scrub.go:778-786 | scanning one upstream read changes nothing of what is still to deliver, and keeps the held tail within bounds |
| `Stream.ScrubReader.Read` | internal/transform/secrets/scrub.go:773-790 | the bytes handed over and those still to come are those that were to come; the end is reported exactly when nothing is left |
| `Stream.ScrubReader.ReadAll` | internal/transform/secrets/scrub.go:773-790 | for every sequence of buffers, what was read and what remains make up what there was to deliver |
| `Stream.ScrubBody` | internal/transform/secrets/scrub.go:197-790 | built tables, scan and reader together deliver a prefix of the scrub for the pairs, and all of it once the end is reported |
| `Alignment.FragmentCoversTheValue` | internal/transform/secrets/scrub.go:120-134 | the fragment is exactly the characters that carry bits of the value and of nothing else |
| `Alignment.FragmentAppears` | internal/transform/secrets/scrub.go:120-134 | the encoding of any prefix, value and suffix shows the fragment at the computed offset |
| `Alignment.KeptIsSound` | internal/transform/secrets/scrub.go:74-84 | only worthwhile forms are added, and no text is looked for twice |
| `Alignment.KeptIsComplete` | internal/transform/secrets/scrub.go:74-84 | every worthwhile form ends up looked for |
| `Alignment.AddDerived` | internal/transform/secrets/scrub.go:74-84 | the loop over the list so far decides exactly whether the form is new |
| `Alignment.ScrubPairsFor` | internal/transform/secrets/scrub.go:69-100 | the list is the value and then its worthwhile new forms in order, each with the same form of the placeholder; nothing for an empty value |
| `Alignment.PairsForIsSound` | internal/transform/secrets/scrub.go:69-100 | the value comes first, texts are distinct, and each other entry is a form of it replaced by that form of the placeholder |
| `Alignment.EncodedValueIsListed` | internal/transform/secrets/scrub.go:69-134 | wherever the value stands in an encoded stream, a needle of the list stands in the text, unless too short to look for |
| `Encodings.ByteFromBits` | internal/transform/secrets/scrub.go:120-134 | the bits of a byte are taken most significant first |
| `Encodings.HexReadsBack` | internal/transform/secrets/scrub.go:85 | the hex form gives each byte two digits that denote it |
| `Encodings.ReverseTwice` | internal/transform/secrets/scrub.go:102-106 | of proper text the characters come in reverse, and reversing again gives the text |
| `Encodings.Rot13Twice` | internal/transform/secrets/scrub.go:108-118 | of proper text exactly the ASCII letters are turned, and turning again gives the text |
| `Encodings.StandardAlphabets` | internal/transform/secrets/scrub.go:88-98 | the two base64 alphabets are plain text, and the two base32 ones plain text in small letters |
| `Encodings.EncodeIsInjective` | internal/transform/secrets/scrub.go:88-98 | texts of one length with one encoding, in any of the four, are the same |
| `Encodings.FormsAre` | internal/transform/secrets/scrub.go:69-100 | the forms looked for are the whole-value transforms and the fragments at every alignment, each with the same form of the placeholder, base32 folded and base64 not |
| `Encodings.EveryFormIsListed` | internal/transform/secrets/scrub.go:69-100 | every form of eight characters or more is looked for, unless that form of the placeholder is empty |
| `Encodings.ListedIsForm` | internal/transform/secrets/scrub.go:69-100 | and behind the value nothing else is |
| `Encodings.StandardValueIsReplaced` | internal/transform/secrets/scrub.go:69-134 | in a stream in any of the four encodings the first byte of a listed fragment of the value is never copied |
| `EncodedMatch.PlainMatch` | internal/transform/secrets/scrub.go:512-557 | on plain bytes the matcher compares byte by byte, to the exact width, and nothing else |
| `EncodedMatch.EncodedValueMatches` | internal/transform/secrets/scrub.go:120-134 | a listed needle with the fragment's text matches the encoded stream at the computed offset, to its full width |
| `EncodedMatch.EncodedValueMatchesAnyCase` | internal/transform/secrets/scrub.go:120-134 | in a base32 stream of any case it matches there exactly when it folds case or the case is the encoder's |
| `EncodedMatch.EncodedValueIsHit` | internal/transform/secrets/scrub.go:69-134 | from the list built for a secret, a match at least as long as the fragment would be replaced at the computed offset |
| `EncodedMatch.EncodedValueIsReplaced` | internal/transform/secrets/scrub.go:69-134 | the scrub of the encoded stream does not copy the byte at the computed offset: it is replaced there or inside an earlier match that overlaps |
| `EncodedMatch.WholeFragmentIsReplaced` | internal/transform/secrets/scrub.go:69-134 | where the scrub stops at the offset every byte of the fragment is replaced |
| `EncodedMatch.EncodedValueIsHitAnyCase` | internal/transform/secrets/scrub.go:69-134 | in base32 the match is there whatever the case of the stream, unless another form of the value has the same text and does not fold |
| `EncodedMatch.EncodedValueIsReplacedAnyCase` | internal/transform/secrets/scrub.go:69-134 | and so the byte is replaced whatever the case of the stream, on the same condition |
| `SqlPolicy.WritesPinned` | internal/postgres/policy.go:91-95 | the loop with early return finds whether any written name is pinned |
| `SqlPolicy.MergeRejects` | internal/postgres/sql.go:378-386 | merging never masks: the union is rejected exactly when either part is |
| `SqlPolicy.ScanMutationsRejects` | internal/postgres/sql.go:395-459 | a tree is rejected exactly when some message anywhere in it may change a protected setting |
| `SqlPolicy.PlpgsqlExact` | internal/postgres/sql.go:249-330 | a PL/pgSQL body is rejected exactly when it does not parse, runs dynamic SQL, or embeds a text that may change a protected setting |
| `SqlPolicy.RoutineExact` | internal/postgres/sql.go:210-244 | a routine definition is rejected exactly when its tree or its body may change a protected setting; an opaque body may |
| `SqlPolicy.ClassifyExact` | internal/postgres/sql.go:128-162 | at every depth, rejected exactly when something may change; the kinds that allow are reported only for opaque texts |
| `SqlPolicy.VerdictIsExact` | internal/postgres/policy.go:64-97 | a text is let through exactly when nothing in it, judged without the classifier's own tests, may change the role or a pinned setting |
| `SqlPolicy.PinnedReason` | internal/postgres/policy.go:83-96 | a pinned setting is the reason given exactly when the text would be let through without the pins |
| `SqlPolicy.ReferencesMeans` | internal/postgres/sql.go:478-493 | a view or rule is taken to touch the settings exactly when a mention of pg_settings occurs somewhere in its tree |
| `SqlPolicy.IsSetConfigMeans` | internal/postgres/sql.go:516-542 | a call is taken for set_config exactly when its last name is, in any schema |
| `SqlCases.PreorderHoldsAll` | internal/postgres/sql.go:566-595 | the walk reaches every message of a tree and no other |
| `SqlCases.WalkVisits` | internal/postgres/sql.go:395-459 | the walk visits each message before those in its fields |
| `SqlCases.TextVerdict` | internal/postgres/policy.go:64-97 | for every text whose code is all in its trees the verdict is that of the first message with a reason of its own, which is listed construct by construct, and without one RESET ALL, DISCARD ALL or a pinned setting, in this order |
| `SqlCases.TextKind` | internal/postgres/sql.go:128-162 | such a text is reported as what the first of its messages is that is of a kind, SET told from RESET; a blank or empty one as empty, and one that does not parse as that |
| `SqlCases.SettingsWritten` | internal/postgres/sql.go:395-459 | the settings such a text is found to write are those some SET, RESET or literal set_config of it names |
| `SqlCases.OneIsEnough` | internal/postgres/policy.go:64-97 | one offending message, at any depth of any statement or routine definition, is enough for rejection |
| `SqlCases.SetConfigIsRejected` | internal/postgres/sql.go:516-542 | a call of set_config is rejected in whatever schema and with whatever arguments |
| `SqlCases.OtherCallsAreAllowed` | internal/postgres/sql.go:516-542 | calls whose last name is another are let through |
| `SqlCases.DoBlockReason` | internal/postgres/policy.go:64-97 | a DO block is rejected as one |
| `SqlCases.UninspectableReason` | internal/postgres/sql.go:210-244 | a routine without a language, in another one, without a text or with one that does not parse is rejected as uninspectable, unless its definition gives another reason |
| `SqlPolicy.BatchIsItsStatements` | internal/postgres/sql.go:141-161 | a batch is let through exactly when each of its statements alone is |
| `SqlPolicy.OrderIrrelevant` | internal/postgres/sql.go:141-161 | neither order nor repetition of statements matters to the verdict |
| `SqlOrder.ChildOrderIrrelevant` | internal/postgres/sql.go:395-595 | a tree is rejected or not whatever order the fields of its messages are walked in, at every depth |
| `SqlOrder.EmbeddedWithin` | internal/postgres/sql.go:298-330 | what an embedded expression asks to have classified does not depend on the order of its fields |
| `SqlOrder.TraversalOrderIrrelevant` | internal/postgres/sql.go:128-595 | the verdict is the same whatever orders the message trees and JSON maps of a text, and of every text nested in it, are traversed in, at every depth |
| `SqlOrder.ShuffledTreeIsJudgedAlike` | internal/postgres/sql.go:566-595 | in particular shuffling the fields of one message does not matter |
| `SqlOrder.ShuffledBodiesAreJudgedAlike` | internal/postgres/sql.go:265-296 | nor does shuffling the outermost object of routine bodies |
| `SqlAst.FirstOptionDecides` | internal/postgres/sql.go:336-356 | the first option of the name decides, a useless value of it included; without one there is no value |
| `SqlAst.CutsAtFirst` | internal/postgres/sql.go:313-317 | an assignment is cut at its first `:=`, and malformed without one |
| `SqlAst.RawSqlCuts` | internal/postgres/sql.go:191-204 | the text of a statement is the part between its bounds, all that follows when it has no length, and everything when they make no sense |
| `SqlAst.ArgTextMeans` | internal/postgres/sql.go:336-366 | an option has a text exactly when its argument is a string or a list of one string |
| `SqlAst.FirstFieldDecides` | internal/postgres/sql.go:298-306 | the first field of a name is the one looked up |
| `SqlAst.EmbeddedByMode` | internal/postgres/sql.go:298-330 | statements are classified as they stand, expressions behind SELECT, assignments by what is right of their first `:=`, and type names not at all |
| `SqlAst.EmbeddedNeedsQuery` | internal/postgres/sql.go:298-302 | an expression without a query that is not blank is malformed |
| `SqlMemo.Memo.RoutineStringOption` | internal/postgres/sql.go:336-356 | the option loop finds what the recursive lookup does |
| `SqlMemo.Mutations.VisitMessage` | internal/postgres/sql.go:397-457 | updates the record as the pure visitor does, the first kind found winning |
| `SqlMemo.Mutations.WalkProto` | internal/postgres/sql.go:566-595 | the recursive walk with its loop over fields folds the visitor over the whole tree |
| `SqlMemo.Memo.ClassifyText` | internal/postgres/sql.go:119-126 | through the memo, nested calls and arbitrary eviction the answer is the uncached one |
| `SqlMemo.Memo.ClassifyUncached` | internal/postgres/sql.go:128-162 | the accumulating loop computes the union of what the statements do |
| `SqlMemo.Memo.ClassifyStmt` | internal/postgres/sql.go:175-244 | one statement, routine definitions included, classified through the memo as without it |
| `SqlMemo.Memo.ScanTree` | internal/postgres/sql.go:265-296 | the in-place scan of a PL/pgSQL tree, with its early exits, computes the recursive one |
| `SqlMemo.Memo.Decide` | internal/postgres/policy.go:64-97 | the verdict is that of the uncached classification, whatever is cached |
| `PgRelay.Relay.ClientMessage` | internal/postgres/session.go:347-422 | one turn of the client loop is one step of the relay's step system |
| `PgRelay.Relay.WriteReject` | internal/postgres/session.go:428-437 | an error, and with it a ReadyForQuery of the current status if asked for |
| `PgRelay.Relay.WriteReadyForQuery` | internal/postgres/session.go:441-446 | a made-up ReadyForQuery of the current status |
| `PgRelay.Relay.WriteClient` | internal/postgres/session.go:450-460 | server messages pass on in order and the last status among them is kept |
| `PgRelay.StatusIsRepeated` | internal/postgres/session.go:298-301 | in every interleaving each made-up ReadyForQuery repeats the status last told to the client |
| `PgRelay.PointsAreConserved` | internal/postgres/session.go:347-446 | forwarded Query and Sync plus made-up ReadyForQuery equal the points the client waits at |
| `PgRelay.SentIsScreened` | internal/postgres/session.go:347-422 | in every run only texts that pass the policy go up, and never a FunctionCall |
| `PgRelay.SkipMeans` | internal/postgres/session.go:303-310 | the flag is on exactly between a rejected Parse and the next Query or Sync |
| `PgRelay.Exchange` | internal/postgres/session.go:347-446 | each message read goes up or is answered exactly as the history calls for: whether a rejected Parse awaits its Sync, and the status last told to the client |
| `PgRelay.ClosedMeans` | internal/postgres/session.go:347-422 | the relay reads on exactly until a Terminate, or until something that goes up cannot be flushed |
| `PgRelay.EveryMessageIsRead` | internal/postgres/session.go:347-422 | so as long as neither happens every client message is read |
| `PgRelay.RepliesArrive` | internal/postgres/session.go:448-460 | without what the proxy makes up, the client gets the first ReadyForQuery and then the server's replies, in order and unchanged |
| `PgSession.CompileSettings` | internal/postgres/config.go:393-417 | settings are accepted exactly when named, well formed, not about the role and distinct, and then all names are pinned in lower case |
| `PgSession.ApplySessionSetup` | internal/postgres/session.go:239-254 | succeeds exactly when the server grants every request, and then every setting and the role have their values and nothing else has changed |
| `PgSession.NextKeeps` | internal/postgres/session.go:347-422 | one step of relay or server keeps the guard and the protected settings |
| `PgSession.PinsHold` | internal/postgres/session.go:347-422 | over every run, from any start, the role and the pinned settings keep their values |
| `PgSession.SetupStaysInForce` | internal/postgres/session.go:239-422 | what setup established is in force at every moment of every run that follows |
| `PgServer.EntersPasses` | internal/postgres/sql.go:128-459 | what code brings up when prepared, defined, called or executed may change no more than the code itself |
| `PgServer.ExecuteEvolves` | internal/postgres/sql.go:128-459 | executing any construct the server has learned changes no setting that none of the texts sent may change |
| `PgServer.SessionIsRun` | internal/postgres/session.go:347-422 | every session with a server that runs what it learned, at any depth of calls, is a run of the session model |
| `PgServer.PinsHoldInServer` | internal/postgres/session.go:239-422 | so role and pinned settings keep what setup gave them in every such session, prepared statements and earlier routines included |
| `PrivateFence.PrivateIPPermission` | internal/transform/private_ips.go:12-28 | no permission exactly when there is no allowlist or an empty one |
| `PrivateFence.Permits` | internal/transform/private_ips.go:29-36 | an address is permitted exactly when every allowlist names it |
| `PrivateFence.AllowedBy` | internal/proxy/private_ip.go:20-30 | a remote address is allowed exactly when it parses and is public, or every one of at least one allowlist names its bare form |
| `PrivateFence.StepKeepsFence` | internal/transform/private_ips.go:39-79 | each step of dial, track, close and swap keeps the fence |
| `PrivateFence.AlwaysFenced` | internal/transform/private_ips.go:39-79 | in every interleaving a tracked connection is live, open and, unless a reload has still to look at it, allowed now |
| `PrivateFence.TrackedMeans` | internal/transform/private_ips.go:39-79 | in every interleaving the connections tracked are exactly those admitted by the pipeline stored last before, and since then neither closed nor found by a reload that does not allow them |
| `PrivateFence.RevokedUnlessClosing` | internal/transform/private_ips.go:38-79 | in a fenced state with the lock free, revocation is complete exactly when no disallowed connection is between leaving the map and closing its socket |
| `PrivateFence.WhileReloading` | internal/transform/private_ips.go:39-79 | while a reload holds the lock, closes under way only become fewer, each by closing its own socket |
| `PrivateFence.ReloadRevokesIff` | internal/transform/private_ips.go:38-79 | after a reload and whatever happened while it held the lock, revocation is complete if and only if every disallowed connection whose close was under way when it took the lock had its socket closed meanwhile |
| `PrivateFence.CloseWindow` | internal/transform/private_ips.go:74-79 | that window is reached with any two pipelines of which only the first allows the connection |
| `PrivateFence.StoreRevokes` | internal/transform/private_ips.go:38-52 | a reload that finds no such close under way when it takes the lock leaves only allowed connections open |
| `PrivateFence.AllowedIsKept` | internal/transform/private_ips.go:38-47 | a reload touches nothing the next pipeline allows |
| `PrivateFence.PipelineHolder.Store` | internal/transform/private_ips.go:39-52 | a legal run of steps after which exactly the allowed connections are tracked, no other connection was touched, and the replaced pipeline is closed |
| `PrivateFence.PipelineHolder.Swap` | internal/transform/private_ips.go:40-48 | the part of it under the lock, which closes no pipeline |
| `PrivateFence.PipelineHolder.DialPrivate` | internal/proxy/private_ip.go:40-48 | admitted exactly when the current pipeline allows it, and otherwise closed |
| `PrivateFence.PipelineHolder.Close` | internal/transform/private_ips.go:74-79 | the connection leaves the map and is closed, however often this is called, and others stay |
| `Pending.RunsAreSound` | internal/transform/secrets/pending.go:49-83 | an unresolved slot is the registered one, and a channel is closed once, exactly when its slot resolves |
| `Pending.NoStrandedWaiter` | internal/transform/secrets/pending.go:73-83 | one install releases every request on the placeholder, whichever reload its slot is from, with that secret unless the slot had one |
| `Pending.ResolvedForGood` | internal/transform/secrets/pending.go:59-83 | a resolved slot never changes again |
| `Pending.ReleasedByInstall` | internal/transform/secrets/pending.go:62-83 | a waiting request is let go exactly by an install of its placeholder after its slot was made |
| `Pending.ResolvedToFirst` | internal/transform/secrets/pending.go:62-83 | over every run a slot resolves to the secret of the first install of its placeholder after it was made, and stays empty without one |
| `Pending.Registry.DeclarePending` | internal/transform/secrets/pending.go:62-71 | returns the unresolved slot registered for the placeholder, the earlier one if there is one |
| `Pending.Registry.InstallPending` | internal/transform/secrets/pending.go:74-83 | resolves the registered slot if it is unresolved, and nothing else |
| `Pending.Registry.WaitForPending` | internal/transform/secrets/pending.go:157-216 | rejected at the first entry that applies and cannot be swapped; before it each entry that applies is swapped for its own secret and the others are passed over |
| `Breaker.NewConfig` | internal/transform/judge/resilience.go:40-54 | threshold and cooldown are positive, and as configured when that is |
| `Breaker.AlwaysSound` | internal/transform/judge/resilience.go:59-114 | in every run half-open means the probe slot is taken, and closed means fewer failures than the threshold |
| `Breaker.LetThrough` | internal/transform/judge/resilience.go:59-83 | a call is let through exactly when closed, or when the cooldown has passed since the failure that opened the breaker; each step to half-open grants one probe |
| `Breaker.SettledOnce` | internal/transform/judge/resilience.go:87-114 | a permit takes effect at most once, however late |
| `Breaker.FailuresAreCounted` | internal/transform/judge/resilience.go:87-114 | the counter is the number of ordinary failures since the last success |
| `Breaker.Opens` | internal/transform/judge/resilience.go:87-114 | a closed breaker opens exactly at the failure that completes the row, or at a failed late probe |
| `Breaker.CooldownRuns` | internal/transform/judge/resilience.go:87-114 | while open or half open the cooldown runs from the latest failure of a probe or at the end of a row |
| `Breaker.PhaseAfter` | internal/transform/judge/resilience.go:87-114 | a settlement that takes effect closes the breaker if it is a success, opens it if it is such a failure, and else leaves it as it is |
| `Breaker.SingleProbe` | internal/transform/judge/resilience.go:59-114 | over a run a probe is out exactly while half open, and then only one, if and only if no ordinary permit is settled while half open by a success or by a failure that completes a row |
| `Breaker.TwoProbes` | internal/transform/judge/resilience.go:59-114 | for every threshold some run has two probes out |
| `Breaker.CircuitBreaker.Allow` | internal/transform/judge/resilience.go:59-83 | the code takes the step, and the permit it returns is a new one |
| `Breaker.CircuitBreaker.Settle` | internal/transform/judge/resilience.go:87-114 | the one-shot settlement takes the step |
| `SecretCache.StateIsHistory` | internal/transform/secrets/resolver.go:334-397 | the fields are the latest success, or before any the latest error |
| `SecretCache.AnswersLatest` | internal/transform/secrets/resolver.go:329-397 | a call answers with the latest successful fetch, its own included, and fails only if none ever succeeded |
| `SecretCache.HoldsAfterFetch` | internal/transform/secrets/resolver.go:351-397 | after a fetch the expiry is the gap that its outcome calls for |
| `SecretCache.FetchesAreSpaced` | internal/transform/secrets/resolver.go:329-397 | successive fetches are that gap apart, and none follows a success that does not expire |
| `SecretCache.FetchesWhenDue` | internal/transform/secrets/resolver.go:351-397 | a call goes to the backend exactly when the gap has passed and values expire |
| `SecretCache.CachedValue.Get` | internal/transform/secrets/resolver.go:351-397 | the code gives the answer and the state of the step system |
| `WebSocket.InsideSnoc` | internal/sshproxy/websocket.go:45-57 | only the final bit of the last data frame decides whether a message is open |
| `WebSocket.DataIsPrefix` | internal/sshproxy/websocket.go:32-86 | what the frames seen carry is a prefix of what all carry, control payloads apart |
| `WebSocket.FramesMakeMessages` | internal/sshproxy/websocket.go:45-57 | the data frames read make up messages: each begins one or continues it according to whether the one before was final |
| `WebSocket.FramesFit` | internal/sshproxy/websocket.go:41-77 | no frame read is masked or longer than 1 MiB, and those that carry no data are whole pings and pongs of at most 125 bytes |
| `WebSocket.WebsocketConn.Screen` | internal/sshproxy/websocket.go:41-77 | a header is refused with the error its defect calls for, and exactly when it may not come now |
| `WebSocket.WebsocketConn.TakeFrame` | internal/sshproxy/websocket.go:36-78 | one frame is begun, or answered if it is a ping, or the connection has failed |
| `WebSocket.WebsocketConn.NextFrame` | internal/sshproxy/websocket.go:36-79 | the header loop ends at a frame with payload, or the connection has failed for the stated reason |
| `WebSocket.WebsocketConn.Deliver` | internal/sshproxy/websocket.go:80-84 | the next payload bytes, within the buffer, the frame and what the connection gives |
| `WebSocket.WebsocketConn.Read` | internal/sshproxy/websocket.go:32-86 | up to the first failure delivers the payload bytes in order for any buffer and short read, with those that come together with an error; keeps the fragmented flag, the remaining count within 2^20, and the pongs |
| `WebSocket.WebsocketConn.ReadAll` | internal/sshproxy/websocket.go:32-86 | over any reads what arrives is a prefix of the data payloads, and at an error all of those seen |
| `Sse.StripCRLF` | internal/mcp/sse.go:120-125 | the loop strips exactly the trailing line feeds and carriage returns |
| `Sse.ReadSSEEvent` | internal/mcp/sse.go:33-72 | the reading loop computes the recursive reading of one event |
| `Sse.FieldIsCut` | internal/mcp/sse.go:107-118 | a line is cut at its first colon, one space behind it is dropped, and without a colon all of it is the name |
| `Sse.EventIsItsLines` | internal/mcp/sse.go:33-72 | an event is the lines up to the next blank one; its data are the values of its data lines and its other lines the rest, in order |
| `Sse.LastEvent` | internal/mcp/sse.go:33-72 | a stream that ends within an event gives what its whole lines say, with the rest kept raw only, and one that fails gives nothing |
| `Sse.ReadKeepsBytes` | internal/mcp/sse.go:33-72 | the raw bytes of an event and the rest of the stream make up the stream |
| `Sse.EventsKeepBytes` | internal/mcp/sse.go:33-72 | the events of a properly ended stream concatenate to it |
| `Sse.ReadLeavesOtherLines` | internal/mcp/sse.go:53-70 | what is kept verbatim is whole lines that are neither blank nor data |
| `Sse.JoinInvertsSplit` | internal/mcp/sse.go:76-105 | splitting a payload into lines and joining them is the identity |
| `Sse.RewriteData` | internal/mcp/sse.go:88-105 | the writing loops give the other lines, the data lines and the blank line |
| `Sse.RereadRewritten` | internal/mcp/sse.go:33-105 | a rewritten event reads back as one event with the same other lines, leaving what follows |
| `Sse.RewriteRoundTrip` | internal/mcp/sse.go:33-105 | the payload comes back exactly when none of its lines ends in a carriage return |
| `Sse.UnfilteredStream` | internal/mcp/intercept.go:334-391 | a stream in which the filter replaces nothing, as its trace develops, is passed on byte for byte |
| `Sse.SseFilter.EventText` | internal/mcp/intercept.go:365-391 | an event is passed raw unless the filter, given the trace so far, replaces its payload; the trace is the filter's |
| `Sse.SseFilter.Read` | internal/mcp/intercept.go:334-360 | for any buffers the concatenated rewritten events are delivered; a failed stream reports its error once and then end of file |
| `Fingerprint.EncodeIsInjective` | internal/transform/oauth/grant.go:124-138 | length-prefixed texts are uniquely decodable below 2^32 bytes |
| `Fingerprint.StreamDetermines` | internal/transform/oauth/grant.go:79-138 | equal streams mean equal credentials and headers when no credential is called like the marker |
| `Fingerprint.ValuesAreTracked` | internal/transform/oauth/grant.go:75-78 | for one entry the stream changes exactly when a value does |
| `Fingerprint.MarkerCollides` | internal/transform/oauth/grant.go:98-122 | two different entries with one stream, one with a credential called like the marker |
| `Fingerprint.LengthCollides` | internal/transform/oauth/grant.go:133-138 | two different entries with one stream, one with a value of 2^32 bytes |
| `Fingerprint.TellsApartIff` | internal/transform/oauth/grant.go:79-138 | over all entries with given credential names and text lengths, the stream determines the maps if and only if the marker is no such name and lengths stay below 2^32 |
| `Fingerprint.AscendingIsUnique` | internal/transform/oauth/grant.go:84 | sorting leaves no choice of order |
| `Fingerprint.StreamIsDetermined` | internal/transform/oauth/grant.go:79-122 | equal maps give equal streams |
| `Fingerprint.Hasher.WriteFingerprintBytes` | internal/transform/oauth/grant.go:133-138 | appends the text behind its 32-bit length |
| `Fingerprint.Hasher.WriteFingerprintField` | internal/transform/oauth/grant.go:128-131 | appends key and value |
| `Fingerprint.Hasher.ResolveCredentials` | internal/transform/oauth/grant.go:79-96 | every source's value and their fields in key order, or the first key in that order whose source failed |
| `Fingerprint.Hasher.ResolveEndpointHeaders` | internal/transform/oauth/grant.go:101-122 | the same behind the marker; nothing at all without header sources |
| `Fingerprint.TokenEntry.TokenSourceFor` | internal/transform/oauth/grant.go:40-73 | fails exactly when a source fails or a new token source cannot be built, changing nothing; else hands out the kept source if the digests agree and a new one if not |
| `Fingerprint.HandedOutIsCurrent` | internal/transform/oauth/grant.go:37-73 | without digest collisions a token source is handed out only for the values it was built from, and a kept one is reused whenever it was |

## Left out

- HTTP, TLS, DNS and tunnel plumbing, certificates, metrics, configuration loading: I/O with easy contracts.
- Secret backends, token exchange, request signing, gRPC and LLM adapters: foreign calls.
- The SQL and PL/pgSQL parsers, JSON decoding, case mapping of strings, the Unicode tables outside ASCII and BLAKE3 are parameters; the laws hold for any such functions.
- That nested texts shrink (`Shrinks`) is a premise of the classifier: without some such measure its recursion need not end.
- The pair table is a set of bytes for each first byte; its packing into 64-bit words (internal/transform/secrets/scrub.go:182-187) is not modelled.
- Buffers are values: that the reader reuses `out` and `chunk` in place (internal/transform/secrets/scrub.go:781-783) is not modelled.
- Response headers and trailers (internal/transform/secrets/scrub.go:805-900) use the same scan and are not modelled.
- Printer.ReadInvertsSpell: with text behind it, an escape start in a form that cannot spell it may read otherwise; `Printer.EscapeStartReadsBack` says exactly when.
- NeedleGrammar.MatchIffNeedleText: for needles of scalars without `%`, `\`, `&` and format characters; for others the literal reading of an escape makes the grammar ambiguous, and `NeedleGrammar.MatchSound` and `OwnText.MatchesOwnText` say what holds of them.
- Reference.ScrubIsNaive: for needles without `%`, `\` and `&`; for others the scan is proved equal to `Scrub`, which has the literal reading written out.
- That scrubbed output holds no needle is not claimed: a replacement and its neighbours can form one.
- SqlCases.TextVerdict: the reason is pinned down for texts whose code is all in their trees; for routine bodies only for those that cannot be inspected. It may depend on statement order; whether a text is rejected does not.
- Pairs.PairIsWritten: with folding the characters come back up to case, as `Printer.PrintParse` and `HexCases.CapitalsTaken` say; a replacement that holds `%`, `\` or `&` may read otherwise.
- The server is any system in which settings change only through the constructs the classifier names, in code that reached it; text that does not parse changes nothing, and a construct writes the settings it names, or any if it names none.
- PgRelay.Relay.ClientMessage: receiving and the end of the client connection are the caller's; a failed flush ends the thread.
- WebSocket.WebsocketConn.Read: may not be called after a failure, when part of a frame has been consumed; the decoding of frame headers and writing are not modelled.
- Sse.SseFilter.EventText: what the filter does with payload and trace (JSON-RPC decoding, the tools filter, the audit entry) is a parameter.
- Pending.Registry.WaitForPending: whether an entry's rules match, the request carries it and its wait ends in time are inputs.
- SecretCache.CachedValue.Get: the clock readings and the fetch outcome are inputs; logging is not modelled.
- Fingerprint.Hasher.ResolveCredentials: takes the keys already sorted; sorting itself is the library's.
