# sipXecs: a verified model of the call-routing core

sipXecs is a SIP telephone exchange. This project models the parts of its proxy, registrar and
redirect server that carry state from one message to the next, or that print a text which
another part has to read back, and proves what they promise over every input and every run.

| files | component |
|---|---|
| `RedirectModel`, `RedirectServer`, `RedirectProofs`, `RedirectCancel`, `RedirectResponses` | the redirect server: requests pass over the redirectors, are suspended, resumed, cancelled (section 9.2 of RFC 3261) or dropped at shutdown |
| `Base64`, `RouteToken`, `RouteTokenProofs`, `RouteStateModel`, `RouteState`, `RouteStateProofs`, `RouteStateLaws`, `RouteStateLife` | the signed route-state token and its life in Record-Route headers |
| `Regex`, `DialPlan`, `DialPlanProofs`, `DialPlanLimits` | the compiler from dial patterns to regular expressions |
| `SymbolMap`, `SymbolChain` | token substitution in transforms |
| `RegistrarModel`, `Registrar`, `RegistrarProofs`, `RegistrarMerge` | the two-pass update of the binding table (section 10.3 of RFC 3261) |
| `EventBuilder`, `CseObserver`, `CseEvents` | the call-state event observer and its event builder |
| `UrlText`, `NatContact` | the NAT rewrite of Contacts in the proxy and its undoing in the registrar |
| `SyslogViewer` | the log viewer with its fixed buffer, and the logger's escaping |
| `BitMask`, `Subnet` | CIDR patterns (section 3.1 of RFC 4632) |

Code that updates fields or runs loops is modelled by classes and methods with the same fields,
branches and loops. Each method is proved against a function on values (`Handle`, `Encode`,
`Updated`, `Apply`, `Step`, ...), and the theorems are about runs and compositions of those
functions. What comes from outside (redirector answers, the order in which a hash table is
walked, `rand()`, the clock, MD5, the chunks a read delivers) is an argument, so every theorem
holds for all of it.

## Where the code falls short of its promise

Each of these is proved twice over: a lemma at an input that fails, and the exact condition under
which the promise holds.

- Route-state tokens: a parameter whose instance and name are both empty, and one whose name
  ends in a newline, are accepted by `setParameter` and make the whole token unreadable
  (`RouteTokenProofs.RoundTrip`, `EmptyNamesAreLost`).
- A Record-Route with state that no longer decodes hides ours when it stands below it
  (`RouteStateProofs.RebuiltStateIsTheSame`, `StaleBelowHidesOurs`).
- Dial patterns: an escaped `+`, `?` or `*` is escaped twice, so it becomes a repetition of a
  backslash (`DialPlanLimits.CompiledRightIffNoRepeaters`, `EscapedPlusIsCompiledWrong`).
- Registrar: the comment says an out-of-order REGISTER is refused, but `RegDB::isOutOfSequence`
  always says no. Late REGISTERs are therefore applied, leave newer bindings standing and lower
  the stored CSeq (`RegistrarProofs.ExactIffNothingLeftBehind`, `LateRegisterLeavesNewerBinding`,
  `CseqKeptIffNotOverwritten`, `LateRegisterLowersCseq`).
- Event builder: the interface asks for call data and a Via before an event is completed, but
  the cases fall through, so completion is accepted between events and in every state inside
  one (`EventBuilder.RefusedExactly`, `CompletedTooEarly`).
- NAT rewrite: a private host called like a URL scheme, with a port, is read back as a scheme
  (`NatContact.RestoreUndoesRewrite`, `ContactComesBack`, `HostNamedSipsIsLost`), and an `@` in its
  transport cuts the text (`AtSignCuts`, `AtSignIsLost`).
- Log viewer: quotes come back with their backslash and carriage returns are gone
  (`SyslogViewer.ViewUndoesEscapeIff`, `QuotedWordIsChanged`).

In two more places the code differs from its comments, and the model follows the code: in the
token pattern the separator is an unescaped dot, so any character but a newline separates pairs
there, although the grammar in the comment asks for a dot and the pair loop only stops at a dot or
`!`; and `unsetParameter` does not mark the state modified.

## Model

| member | source | states |
|---|---|---|
| `RedirectServer.RedirectSuspend.constructor` | sipXregistry/src/RedirectSuspend.cpp:26-38 | a new suspend object has one slot per redirector, none suspended, none to cancel, count zero |
| `RedirectServer.SipRedirectServer.CancelRedirect` | sipXregistry/src/SipRedirectServer.cpp:160-190 | removes the request from the suspend list and adds exactly one cancel() for each active redirector whose slot needs it; nothing else changes |
| `RedirectServer.SipRedirectServer.LookUpAll` | sipXregistry/src/SipRedirectServer.cpp:282-380 | the loop over the redirectors, with objects and list updated in place, ends as the pure pass does: same suspend object, flags, error, contacts, and only this entry of the list touched |
| `RedirectServer.SipRedirectServer.ProcessRedirect` | sipXregistry/src/SipRedirectServer.cpp:211-571 | the whole pass with its response or suspension refines `Process` |
| `RedirectServer.SipRedirectServer.HandleRequest` | sipXregistry/src/SipRedirectServer.cpp:650-670 | a request other than CANCEL is processed under the next sequence number and refines the model's step |
| `RedirectServer.SipRedirectServer.HandleCancel` | sipXregistry/src/SipRedirectServer.cpp:606-649 | the walk over the list, in any order, refines the model's CANCEL step; which INVITEs a CANCEL applies to is decided as isSameSession does, a missing To tag going with any |
| `RedirectServer.SipRedirectServer.HandleResume` | sipXregistry/src/SipRedirectServer.cpp:675-741 | stale, repeated and out-of-range resumes are ignored, the last one reprocesses; refines the model's step |
| `RedirectServer.SipRedirectServer.HandleShutdown` | sipXregistry/src/SipRedirectServer.cpp:744-760 | every suspended request is dropped with its cancel() calls, none is answered |
| `RedirectServer.HandleMessage` | sipXregistry/src/SipRedirectServer.cpp:574-760 | every message the object handles is an enabled step of the model |
| `RedirectServer.Serve` | sipXregistry/src/SipRedirectServer.cpp:574-760 | the object, given any sequence of messages, goes through a run of the model, message for message, until a shutdown; so all theorems about runs hold of it |
| `RedirectServer.ErrorEndsPass` | sipXregistry/src/SipRedirectServer.cpp:282-284 | once a redirector has failed, the ones after it have no effect |
| `RedirectProofs.PendedIsWhoAnsweredPending` | sipXregistry/src/SipRedirectServer.cpp:357-368 | a pass records as pending exactly those who were asked and answered SEARCH_PENDING |
| `RedirectProofs.LevelIsHighestAuthority` | sipXregistry/src/SipRedirectServer.cpp:285-343 | the authority level of a pass is the highest among the redirectors that changed the contact list; it has an error exactly when an asked redirector failed |
| `RedirectProofs.AskedByAuthority` | sipXregistry/src/SipRedirectServer.cpp:285-300 | a redirector is asked if and only if it is active, nobody before it failed, and nobody before it with more authority changed the list |
| `RedirectProofs.ContactsOfLastChange` | sipXregistry/src/SipRedirectServer.cpp:389-536 | the contacts a response is made from are those left by the last asked redirector that touched the list, none if nobody did |
| `RedirectProofs.ErrorOfFailure` | sipXregistry/src/SipRedirectServer.cpp:344-356 | the error of a pass is that of the redirector that failed |
| `RedirectResponses.ResponseOfPass` | sipXregistry/src/SipRedirectServer.cpp:389-571 | the response to a request from what the redirectors answered: the failing one's error for anything but an ACK; else nothing while one that was asked is searching; else a 302 with the contacts left in the list, a 404 if there are none, and for an ACK the forwarded ACK exactly when there is one contact; no other request's outputs change |
| `RedirectResponses.ArrivalIsAnswered` | sipXregistry/src/SipRedirectServer.cpp:650-670 | the same for a request that arrives, on the whole state |
| `RedirectResponses.SuspendObjectIffNeeded` | sipXregistry/src/SipRedirectServer.cpp:304-321 | a pass has a suspend object exactly when there was one, or somebody asked is searching or left private storage |
| `RedirectResponses.StorageIsKept` | sipXregistry/src/SipRedirectServer.cpp:323-330 | the suspend object keeps for every redirector the private storage it left when last asked |
| `RedirectProofs.HandleKeepsInv` | sipXregistry/src/SipRedirectServer.cpp:574-760 | every step keeps the invariant behind the theorems below |
| `RedirectProofs.RunKeepsInv` | sipXregistry/src/SipRedirectServer.cpp:574-760 | so does every run, and after shutdown nothing is suspended |
| `RedirectProofs.EveryRequestWaitsOrIsAnsweredOnce` | sipXregistry/src/SipRedirectServer.cpp:211-571 | at every moment of every run until shutdown, a request other than ACK is in the suspend list or has exactly one final response, never both, never neither; an ACK is never answered and is forwarded at most once |
| `RedirectProofs.SuspendCountsAreExact` | sipXregistry/src/SipRedirectServer.cpp:303-368 | between messages every suspended request's count is the number of its suspended redirectors, at least one, and the next sequence number is free |
| `RedirectProofs.CancelReachesExactlyTheSuspenders` | sipXregistry/src/SipRedirectServer.cpp:160-190 | once a request has left the list, cancel() was called exactly once on exactly the active redirectors that ever answered SEARCH_PENDING for it, and on nobody before |
| `RedirectProofs.ResumesInAnyOrder` | sipXregistry/src/SipRedirectServer.cpp:675-741 | for any order and repetition of resumes, and any other traffic, the suspend object depends only on the set of those who resumed, and the request waits while one is missing |
| `RedirectProofs.LastResumeReprocesses` | sipXregistry/src/SipRedirectServer.cpp:722-739 | the request is reprocessed exactly when the last distinct suspended redirector resumes, with nobody left suspended |
| `RedirectCancel.CancelTerminatesExactly` | sipXregistry/src/SipRedirectServer.cpp:606-649 | in every run a CANCEL answers 487 to each waiting INVITE with its Call-ID, CSeq number and From side, and To tags that do not differ where both are given; that one then no longer waits, and every other request keeps its outputs and its place |
| `RedirectResponses.ShutdownAnswersNobody` | sipXregistry/src/SipRedirectServer.cpp:744-760 | a shutdown sends nothing |
| `RedirectResponses.ResponsesAreFinal` | sipXregistry/src/SipRedirectServer.cpp:574-760 | in every run, a response once sent stays the only output for that request |
| `Base64.DecodeEncode` | sipXtackLib/src/net/NetBase64Codec.cpp:40-248 | decoding an encoding gives the bytes back, for every byte string |
| `Base64.EncodeAlphabet` | sipXtackLib/src/net/NetBase64Codec.cpp:23-80 | an encoding holds only the 64 digits and the pad character |
| `Base64.DigitsInOrder` | sipXtackLib/src/net/NetBase64Codec.cpp:23-27 | the 64 digits in the order of section 4 of RFC 4648 |
| `Base64.GroupIsTheSameNumber` | sipXtackLib/src/net/NetBase64Codec.cpp:40-80 | three bytes and their four digits are one 24-bit number |
| `Base64.AcceptedExactly` | sipXtackLib/src/net/NetBase64Codec.cpp:105-222 | what decodes: whole groups of digits with at most two pads at the end, and how many bytes come out |
| `RouteTokenProofs.RoundTrip` | sipXproxy/src/RouteState.cpp:331-491 | under one secret and Call-ID, decode of encode gives back exactly the sorted list if it is non-empty and no name is a bare star or holds a newline, and is refused otherwise |
| `RouteTokenProofs.EmptyNamesAreLost` | sipXproxy/src/RouteState.cpp:69-107 | the empty instance and parameter names are accepted, and the token with them is refused |
| `RouteTokenProofs.PairsIffSurvive` | sipXproxy/src/RouteState.cpp:51-61 | the token pattern, in which any character but a newline separates pairs, takes the text of a sorted list exactly when it is non-empty and every name survives |
| `RouteStateLaws.DecodedIsSigned` | sipXproxy/src/RouteState.cpp:370-403 | whatever decodes is, up to a final newline, some pairs, `!` and the hash of secret, Call-ID and those pairs |
| `RouteStateLaws.ForeignTokenIsRefused` | sipXproxy/src/RouteState.cpp:398-480 | a token written under another secret or Call-ID is refused unless the two hashes are equal |
| `RouteStateLaws.UnsignedMessageYieldsNothing` | sipXproxy/src/RouteState.cpp:110-189 | a message with only such tokens, or tokens not signed for this key, yields no state and no parameters |
| `RouteStateLaws.PairAtExactly` | sipXproxy/src/RouteState.cpp:60-61 | a pair is found exactly where a name, `~`, a value and a dot or `!` stand |
| `RouteStateLaws.NextPairIsFirst` | sipXproxy/src/RouteState.cpp:405-466 | the search for the next pair finds the first there is and skips what is none |
| `RouteStateLaws.AnySeparatorWillDo` | sipXproxy/src/RouteState.cpp:57-58 | in the token pattern any character but a newline separates pairs |
| `RouteStateLaws.NamesTaken` | sipXproxy/src/RouteState.cpp:69-107 | which instance and parameter names are taken, and the name they make |
| `RouteStateLaws.NamesAreDistinct` | sipXproxy/src/RouteState.cpp:69-107 | two different pairs of instance and parameter never make the same name |
| `RouteState.RouteState.DecodeToken` | sipXproxy/src/RouteState.cpp:370-491 | the token pattern, the signature check and the search loop over the pairs compute `Decode`; when it fails no parameter remains |
| `RouteState.RouteState.EncodeToken` | sipXproxy/src/RouteState.cpp:331-368 | the loop over the parameters builds `Encode` |
| `RouteState.RouteState.constructor` | sipXproxy/src/RouteState.cpp:110-227 | state is taken from the first removed Route that decodes, else from the Record-Routes; which state is mutable, and which Record-Routes are ours |
| `RouteStateLaws.FirstRouteWins` | sipXproxy/src/RouteState.cpp:120-147 | the first Route that decodes settles the state, which is then not mutable |
| `RouteStateLaws.MutableExactly` | sipXproxy/src/RouteState.cpp:148-227 | state is mutable exactly in requests without a Route that decodes, if some Record-Route decodes or the request is no ACK and has no To tag |
| `RouteState.RouteState.GetParameter` | sipXproxy/src/RouteState.cpp:496-531 | finds the value stored under the joined name; an invalid name finds nothing |
| `RouteState.RouteState.SetParameter` | sipXproxy/src/RouteState.cpp:534-585 | on mutable state puts the value and marks the state modified; otherwise changes nothing; keeps the list sorted and its names valid |
| `RouteState.RouteState.UnsetParameter` | sipXproxy/src/RouteState.cpp:588-620 | on mutable state removes the parameter, without marking the state modified; keeps the list sorted and its names valid |
| `RouteState.RouteState.OriginalCallerFromTagValue` | sipXproxy/src/RouteState.cpp:268-310 | the recorded tag wins; otherwise mutable state records and returns this message's, and immutable state returns none |
| `RouteState.RouteState.Update` | sipXproxy/src/RouteState.cpp:629-693 | a mutable, modified (or copied) state rewrites the Record-Routes in place as `Updated`; otherwise the message is untouched |
| `RouteStateProofs.GetIsMembership` | sipXproxy/src/RouteState.cpp:496-531 | lookup in the sorted list is membership |
| `RouteStateProofs.PutSorted` | sipXproxy/src/RouteState.cpp:534-585 | setting a parameter keeps the list sorted without duplicates |
| `RouteStateProofs.GetAfterPut` | sipXproxy/src/RouteState.cpp:534-585 | after a set, that name has the new value and every other name what it had |
| `RouteStateProofs.GetAfterRemove` | sipXproxy/src/RouteState.cpp:588-620 | after an unset, that name is gone and every other name has what it had |
| `RouteStateProofs.IndicesAreOurs` | sipXproxy/src/RouteState.cpp:148-189 | the recorded indices are exactly the Record-Routes of ours, in increasing order |
| `RouteStateProofs.LastCarrierWins` | sipXproxy/src/RouteState.cpp:148-189 | the list a message yields is that of its last Record-Route with state, empty if that one does not decode |
| `RouteStateProofs.FoundIffSomeDecodes` | sipXproxy/src/RouteState.cpp:148-189 | state counts as found exactly when some Record-Route's state decodes |
| `RouteStateProofs.RebuiltStateIsTheSame` | sipXproxy/src/RouteState.cpp:629-693 | for every sorted list of accepted names: a state rebuilt from the updated message is found exactly when the list is non-empty and every name survives, and holds the same parameters if and only if the list is empty, or every name survives and every undecodable carrier has one of ours below it |
| `RouteStateProofs.StaleBelowHidesOurs` | sipXproxy/src/RouteState.cpp:148-189 | our Record-Route above one with undecodable state is updated but not read back |
| `RouteStateProofs.UpdateTouchesOnlyOurState` | sipXproxy/src/RouteState.cpp:656-675 | with Record-Routes of ours and no copy asked for, the headers keep their number and order, and only our state parameter differs |
| `RouteStateLaws.UpdateAddsOnTop` | sipXproxy/src/RouteState.cpp:629-693 | what update adds on top: our Record-Route when none was ours, a copy where asked for and ours is not on top, and nothing otherwise; below, every header stays and only our state changes |
| `RouteStateLife.Serve` | sipXproxy/src/RouteState.cpp:496-627 | any sequence of plugin calls keeps the list sorted and its names valid, and leaves an immutable state's list alone |
| `RouteStateLife.Relay` | sipXproxy/src/RouteState.cpp:110-227 | a state built from a message with our tokens or stale ones, changed by any calls, written, and built again at the next hop holds the same parameters exactly under the condition above, and the message again carries only our tokens or stale ones |
| `RouteStateLife.BuildFromUnsigned` | sipXproxy/src/RouteState.cpp:110-227 | a state object built from a message with nothing signed for its secret and Call-ID has found nothing and holds nothing |
| `DialPlan.ConvertRegularExpression` | sipXcommserverLib/src/digitmaps/UrlMapping.cpp:904-1035 | the character loop emits `Convert` of the pattern |
| `DialPlanProofs.ParseConvert` | sipXcommserverLib/src/digitmaps/UrlMapping.cpp:904-1035 | the emitted text, read as a regular expression, is one item per dial token, with one group from the first variable token on |
| `DialPlanProofs.CompiledPatternMeansTheSame` | sipXcommserverLib/src/digitmaps/UrlMapping.cpp:904-1046 | the emitted expression matches a newline-free user part exactly when the dial pattern does, and then the user part is the constant prefix followed by vdigits (empty without a wildcard) |
| `DialPlanLimits.CompiledRightIffNoRepeaters` | sipXcommserverLib/src/digitmaps/UrlMapping.cpp:956-1004 | with escaped `+`, `?` and `*` allowed, a pattern is compiled right if and only if it has none of them |
| `DialPlanLimits.EscapedPlusIsCompiledWrong` | sipXcommserverLib/src/digitmaps/UrlMapping.cpp:956-1004 | the pattern for a leading `+1` is one that fails |
| `SymbolMap.ReplaceEach` | sipXcommserverLib/src/digitmaps/UrlMapping.cpp:89-116 | the loop replaces every occurrence, left to right, and equals splitting at the token and joining with the replacement |
| `SymbolMap.ReplacedIsSplitAndJoin` | sipXcommserverLib/src/digitmaps/UrlMapping.cpp:89-116 | replacing is split-and-join |
| `SymbolChain.ChainIsSimultaneous` | sipXcommserverLib/src/digitmaps/UrlMapping.cpp:198-284 | on brace-free text and exact-case tokens, with brace-free values, the chain of thirteen replacements is one simultaneous substitution |
| `SymbolChain.TokensAreSpelled` | sipXcommserverLib/src/digitmaps/UrlMapping.cpp:48-60 | the thirteen tokens, spelled out |
| `Registrar.SipRegistrarServer.CheckContacts` | sipXregistry/src/SipRegistrarServer.cpp:379-612 | the first loop computes the pure pass |
| `Registrar.SipRegistrarServer.SpreadTime` | sipXregistry/src/SipRegistrarServer.cpp:662-684 | for every rand(), a lifetime below the longest asked for and at least twice the minimum if more than that was asked for, at least the minimum otherwise, and the minimum itself if nothing more was asked for |
| `Registrar.SipRegistrarServer.WriteBindings` | sipXregistry/src/SipRegistrarServer.cpp:686-735 | the second loop writes one row per registration and then removes the older rows of the call |
| `Registrar.SipRegistrarServer.ApplyRegisterToDirectory` | sipXregistry/src/SipRegistrarServer.cpp:305-789 | status, table and duration are those of `Apply` |
| `RegistrarProofs.PassCollects` | sipXregistry/src/SipRegistrarServer.cpp:379-612 | the pass succeeds if and only if every contact is acceptable, and then holds every sip and sips contact in order with its capped expiry, the longest of them, and whether a `*` or a removal was seen |
| `RegistrarProofs.StatusExactly` | sipXregistry/src/SipRegistrarServer.cpp:379-789 | the status of every REGISTER: the first contact with a malformed or too short expiry decides, then a message without contacts is a query, a `*` is accepted only alone with Expires zero, and a message with a sip or sips contact is accepted whether it registers or removes |
| `RegistrarProofs.NeverOutOfOrder` | sipXregistry/src/SipRegistrarServer.cpp:366-369 | those cases cover every message, and none is ever answered as out of order |
| `RegistrarProofs.WantedIsAsked` | sipXregistry/src/SipRegistrarServer.cpp:427-470 | each registration's expiry is what its contact asked for (or the common value), capped at the maximum |
| `RegistrarProofs.SpreadBounds` | sipXregistry/src/SipRegistrarServer.cpp:662-684 | for every rand() the spread lies between the minimum and the longest expiry asked for |
| `RegistrarProofs.SpreadReachesAll` | sipXregistry/src/SipRegistrarServer.cpp:662-684 | every lifetime in that range is the spread for some rand() |
| `RegistrarProofs.StoredRow` | sipXregistry/src/SipRegistrarServer.cpp:686-735 | the row stored for each contact of an accepted REGISTER with distinct contacts: this Call-ID and CSeq, and expired if it asked for zero, else now plus the smallest of what it asked for, the maximum and the spread |
| `RegistrarProofs.LifetimesAreBounded` | sipXregistry/src/SipRegistrarServer.cpp:686-723 | in the table, for every rand(): a zero request is stored as expired, any other lives at least the minimum and at most what it asked for and the maximum |
| `RegistrarProofs.LongestStoredIsTold` | sipXregistry/src/SipRegistrarServer.cpp:769-769 | if some contact asked for time, the duration told to the plugins is the lifetime of one of the stored rows, and by the bound above none lives longer |
| `RegistrarProofs.TableChangesOnlyOnSuccess` | sipXregistry/src/SipRegistrarServer.cpp:606-746 | unless the status is success the table is as before |
| `RegistrarProofs.StarDropsAllOrFails` | sipXregistry/src/SipRegistrarServer.cpp:626-647 | a message with a `*` is either a sole `*` with Expires zero, which removes every row of the identity and no other, or it fails and changes nothing |
| `RegistrarProofs.AcceptedRows` | sipXregistry/src/SipRegistrarServer.cpp:686-735 | every row of the identity after an accepted REGISTER: the message's for its contacts, the old one otherwise unless it is an older row of the same call |
| `RegistrarProofs.ExactIffNothingLeftBehind` | sipXregistry/src/SipRegistrarServer.cpp:686-735 | the unexpired bindings of the identity and Call-ID are exactly the message's contacts with non-zero expiry if and only if no live binding of that call, not older than the message, is left unmentioned |
| `RegistrarProofs.LateRegisterLeavesNewerBinding` | sipXcommserverLib/src/sipdb/RegDB.cpp:209-213 | an accepted late REGISTER for which that fails |
| `RegistrarProofs.CseqKeptIffNotOverwritten` | sipXcommserverLib/src/sipdb/RegDB.cpp:54-155 | the newest stored CSeq of a call is kept if and only if the message does not overwrite every row that carries it |
| `RegistrarProofs.HarmlessRunKeepsCseq` | sipXregistry/src/SipRegistrarServer.cpp:366-369 | over any run of REGISTERs that do not do so, it never decreases |
| `RegistrarProofs.InSequenceKeepsPromises` | sipXregistry/src/SipRegistrarServer.cpp:366-369 | for a message newer than all that is stored for its identity and Call-ID, which is what the sequence check is there to ensure, the bindings are exactly the message's and the stored CSeq is kept |
| `RegistrarProofs.LateRegisterLowersCseq` | sipXcommserverLib/src/sipdb/RegDB.cpp:209-213 | an accepted late REGISTER that lowers the stored CSeq |
| `RegistrarProofs.OtherIdentitiesKept` | sipXcommserverLib/src/sipdb/RegDB.cpp:54-178 | rows of other identities are never touched |
| `RegistrarMerge.MergeNewBindings` | sipXregistry/src/SipRegistrarServer.cpp:813-843 | the nested loops append, in order, exactly the new bindings that no unexpired one represents |
| `RegistrarMerge.MergedIsUnion` | sipXregistry/src/SipRegistrarServer.cpp:813-843 | the merged list represents exactly the bindings of both lists, and lists none twice if neither list does |
| `RegistrarMerge.MergedListsBoth` | sipXregistry/src/SipRegistrarServer.cpp:813-843 | a contact and Call-ID are in the merged list exactly when they are in one of the two |
| `RegistrarMerge.OtherCallIsListedToo` | sipXregistry/src/SipRegistrarServer.cpp:823-837 | a contact listed by another call is listed again |
| `RegistrarMerge.UnlistedInOrder` | sipXregistry/src/SipRegistrarServer.cpp:813-843 | new bindings keep their order, each judged on its own |
| `EventBuilder.RefusedExactly` | sipXproxy/src/CallStateEventBuilder.cpp:66-145 | the states, by name, in which each builder call is accepted, with fall-through as coded, and the state each call leads to; a refused call leaves the state alone |
| `EventBuilder.CompletedTooEarly` | sipXproxy/src/CallStateEventBuilder.cpp:66-145 | an event just begun can be completed, and call data accepted between events leads to a state where completion is refused |
| `EventBuilder.CallStateEventBuilder.CheckState` | sipXproxy/src/CallStateEventBuilder.cpp:66-145 | the switch with its fall-through computes the automaton and updates the state field |
| `EventBuilder.CallStateEventBuilder.BuildEvent` | sipXproxy/src/CallStateEventBuilder_DB.cpp:341-490 | from an idle builder, for any number of Vias, no call is refused, exactly the begun event comes out, and the builder is idle again |
| `CseObserver.SipXProxyCseObserver.constructor` | sipXproxy/src/SipXProxyCseObserver.cpp:134-237 | the observer starts with an idle builder and the reset event logged |
| `CseObserver.SipXProxyCseObserver.CleanupTransMap` | sipXproxy/src/SipXProxyCseObserver.cpp:285-311 | the loop removes exactly the entries older than the longest call |
| `CseObserver.SipXProxyCseObserver.UpdateMap` | sipXproxy/src/SipXProxyCseObserver.cpp:547-660 | the map and the decision to log, case by case, are those of `Decide` |
| `CseObserver.SipXProxyCseObserver.HandleMessage` | sipXproxy/src/SipXProxyCseObserver.cpp:364-682 | refines the step function; the builder is idle before and after every message and no builder call is refused |
| `CseObserver.Observe` | sipXproxy/src/SipXProxyCseObserver.cpp:313-703 | the object, given any sequence of inputs, ends in the model's state with the builder idle and no builder call ever refused |
| `CseObserver.RunKeepsInv` | sipXproxy/src/SipXProxyCseObserver.cpp:313-703 | every run keeps the invariant behind the theorems below |
| `CseObserver.AnswersFollowRequests` | sipXproxy/src/SipXProxyCseObserver.cpp:590-646 | in every run a logged setup or failure is preceded by a logged request with the same Call-ID and branch, with no end or failure of that call between |
| `CseObserver.AtMostTwoRequestsPerStay` | sipXproxy/src/SipXProxyCseObserver.cpp:549-589 | in every run, from the event logged when a call entered the map, and as long as it stays there, at most two request events are logged for it: that one, with the recorded branch, and one more only if it carries an identity and the first did not |
| `CseObserver.SequenceNumbersIncrease` | sipXproxy/src/SipXProxyCseObserver.cpp:446-449 | logged sequence numbers strictly increase in every run |
| `CseObserver.AtMostOneEventPerMessage` | sipXproxy/src/SipXProxyCseObserver.cpp:665-682 | each input logs at most one event, under a new sequence number |
| `CseEvents.ByeEndsItsCall` | sipXproxy/src/SipXProxyCseObserver.cpp:647-653 | every BYE logs the end of its call and removes it from the map, and nothing else |
| `CseEvents.ReferIsATransfer` | sipXproxy/src/SipXProxyCseObserver.cpp:654-658 | every REFER logs a transfer and leaves the map alone |
| `CseEvents.InviteIsLoggedOnce` | sipXproxy/src/SipXProxyCseObserver.cpp:549-588 | an INVITE without a To tag logs a request if and only if its call is not in the map or it brings the first identity; the entry made or marked |
| `CseEvents.SuccessIsASetup` | sipXproxy/src/SipXProxyCseObserver.cpp:590-620 | a 2xx to an INVITE logs a setup if and only if the map has its call with its branch; only a 200 leaves the call there |
| `CseEvents.ErrorIsAFailure` | sipXproxy/src/SipXProxyCseObserver.cpp:622-645 | a status of 400 or more does so with a failure, except that 407 logs nothing; the call leaves the map |
| `CseEvents.NothingElseCounts` | sipXproxy/src/SipXProxyCseObserver.cpp:364-449 | no other input logs, changes the map or takes a sequence number |
| `CseEvents.CleanupKeepsEightHours` | sipXproxy/src/SipXProxyCseObserver.cpp:285-311 | a cleanup keeps exactly the calls that entered the map at most eight hours ago |
| `CseEvents.CallFromRequestToEnd` | sipXproxy/src/SipXProxyCseObserver.cpp:547-660 | after any run, a new call's request, 200 and BYE log exactly those three events, in order |
| `UrlText.HostPortBack` | sipXtackLib/src/net/Url.cpp:166-176 | a host and port, written out, are read back, whatever parameters follow |
| `UrlText.ReadsAreWellFormed` | sipXtackLib/src/net/Url.cpp:166-176 | every host and port the parser reads can be written and read back |
| `NatContact.AddNatMappingInfoToContacts` | sipXproxy/src/SipRouter.cpp:1767-1869 | every sip or sips Contact behind a NAT gets the public address and keeps its user and other parameters in order, with the private host, port and transport as last parameter; otherwise it only gets the no-NAT mark, if neither parameter was there; `*` and other schemes are untouched and none is added, moved or dropped |
| `NatContact.RestoreUndoesRewrite` | sipXregistry/src/SipRegistrarServer.cpp:1092-1120 | the registrar gives back the Contact as it was (user, host, port or none, parameters in order) if and only if it carried neither NAT parameter and, behind a NAT, its private text is not cut at an `@` or read as a scheme |
| `NatContact.ContactComesBack` | sipXregistry/src/SipRegistrarServer.cpp:1092-1120 | without an `@` in the transport, a Contact without NAT parameters comes back unless it is NATed and its host, with a port, is called like a scheme |
| `NatContact.PrivateAddressBack` | sipXtackLib/src/net/Url.cpp:1513-1665 | the URL parser reads the private text back as the host and port it was written from if and only if it is not cut at an `@` (or what follows is the same address) and does not start like a scheme |
| `NatContact.HostNamedSipsIsLost` | sipXtackLib/src/net/Url.cpp:1513-1560 | a Contact at host `sips`, port 5060, is not restored |
| `NatContact.AtSignCuts` | sipXtackLib/src/net/Url.cpp:1590-1610 | with a domain name, no port and an `@` in the transport, the address after the `@` is read back |
| `NatContact.AtSignIsLost` | sipXtackLib/src/net/Url.cpp:1590-1610 | a Contact at host `a` with transport `x@b` comes back with host `b` |
| `SyslogViewer.Viewer.ProcessChar` | sipXportLib/syslogviewer/main.c:111-228 | output followed by buffer grows by exactly what the character shows, and the buffer index stays below 8192 |
| `SyslogViewer.Viewer.ProcessChunk` | sipXportLib/syslogviewer/main.c:387-395 | after any chunk, output followed by buffer is the unescape of everything consumed |
| `SyslogViewer.ViewLog` | sipXportLib/syslogviewer/main.c:382-397 | for every split of the input into chunks, the final output is the unescape of their concatenation |
| `SyslogViewer.UnescapeOneMore` | sipXportLib/syslogviewer/main.c:153-226 | the one-character-at-a-time view agrees with unescaping from the front |
| `SyslogViewer.ViewOfJoin` | sipXportLib/syslogviewer/main.c:153-226 | a text that does not break off in an escape is viewed on its own, whatever follows |
| `SyslogViewer.ViewOfPieces` | sipXportLib/syslogviewer/main.c:153-226 | the view of each kind of piece: the four escapes, a bare quote, a backslash at the end, any other character |
| `SyslogViewer.EscapeFilter` | sipXportLib/include/os/OsLogger.h:578-608 | the logger's loop computes `EscapeLog` |
| `SyslogViewer.ViewOfEscaped` | sipXportLib/include/os/OsLogger.h:578-608 | the view of an escaped message is the message without carriage returns and with a backslash before each quote |
| `SyslogViewer.ViewUndoesEscapeIff` | sipXportLib/include/os/OsLogger.h:578-608 | the view of an escaped message is the message if and only if it has neither |
| `SyslogViewer.QuotedWordIsChanged` | sipXportLib/syslogviewer/main.c:181-226 | a message with a quote is shown with a backslash before it |
| `SyslogViewer.EscapeIsInjective` | sipXportLib/include/os/OsLogger.h:578-608 | different messages are different in the log |
| `SyslogViewer.EscapedIsOneLine` | sipXportLib/include/os/OsLogger.h:578-608 | a log line holds no line break |
| `BitMask.MaskSelectsBlock` | sipXcommserverLib/src/digitmaps/Patterns.cpp:106-118 | for n from 1 to 32, the masked address is the network if and only if the network is a multiple of 2^(32-n) and the address lies in the block that starts there |
| `BitMask.AndBytesIsAnd` | sipXcommserverLib/src/digitmaps/Patterns.cpp:106-118 | masking bytes in network order is masking the number |
| `Subnet.SubnetIsABlock` | sipXcommserverLib/src/digitmaps/Patterns.cpp:46-126 | a pattern matches exactly the well-formed addresses in its block; malformed addresses, networks and sizes outside 1 to 32 match nothing |
| `Subnet.WrittenSubnet` | sipXcommserverLib/src/digitmaps/Patterns.cpp:46-126 | for an address and a network of one to four octets written out: they match exactly when the size is 1 to 32, the zero-filled network starts a block of 2^(32-size), and the address is in it |
| `Subnet.OctetIsDecimal` | sipXcommserverLib/src/digitmaps/Patterns.cpp:94-98 | an octet's text is a number below 256 without leading zeros |
| `Subnet.ShortenedIsPadded` | sipXcommserverLib/src/digitmaps/Patterns.cpp:67-98 | a shortened network such as `192.168/16` behaves as its zero-padded form |
| `Subnet.NoSlashNoMatch` | sipXcommserverLib/src/digitmaps/Patterns.cpp:60-65 | a pattern without a slash matches nothing |

## Left out

- Wrap-around of the 32-bit request sequence number in the redirect server: numbers are unbounded here.
- Exceptions in the redirect server's message loop, and redirectors that resume or cancel from other threads: messages are handled one at a time.
- The contents of the contact list, of error descriptors and of forwarded ACKs: the redirect model keeps the number of contacts and the error code.
- RouteState.RouteState.Update: the message has to be the one the state was built from (its indices must exist); MD5 is an arbitrary function; values are bytes without the C string terminator's special role.
- RouteState.RouteState.UnsetParameter: follows the code, which does not mark the state modified, so an update after nothing but a removal writes nothing.
- Escaped `$`, `(`, `)`, a backslash at the end, `^`, `|`, `{`, and bracket bodies such as `:1:` that PCRE takes for POSIX syntax: outside the fragment `Tokenize` accepts.
- The transform automaton of UrlMapping::doTransform and the XML it reads: a chain of ordered setters without a property that spans them.
- SymbolChain.ChainIsSimultaneous: values and text with braces are outside the claim, since a value may then complete a token.
- Minimum expiry above maximum expiry in the registrar: the lifetime theorems assume 0 < min <= max.
- The registrar's plugins, GRUU, Path and Q handling, the thread pool, and the shards, grace period and expiry thread of the binding table: foreign calls or configuration.
- validateUnregisteredBindings: its comment and its test for `*` disagree.
- Event fields other than sequence number, kind, Call-ID, branch and the internal flag, the SQL text and its quoting, and the XML builder.
- NatContact.RestoreUndoesRewrite: URLs are records between proxy and registrar; their printing and parsing is modelled only for the private text inside the parameter.
- Indent and fold modes of the log viewer, and its pager.
- The cache of compiled wildcards for DNS names in Patterns: it only memoizes.
- Overflow of `atoi` in CIDR sizes: numbers are unbounded here.
- ForwardRules, the rest of SipRouter, configuration, daemons and start-up.
