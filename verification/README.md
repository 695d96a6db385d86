# telepathy-haze in Dafny

telepathy-haze connects two libraries that each keep state and call each other back: telepathy-glib, through which D-Bus
clients see contacts, channels and calls, and libpurple, which talks to the servers. This project models the parts of haze
that hold real algorithms and protocols, and proves what they keep over every run. libpurple, telepathy-glib and the GLib main
loop appear as a small explicit environment: a table of groups and buddies, logs of the signals and calls that were made, and
callbacks as events in any order that the two libraries allow.

Verify it with `dafny verify dfyconfig.toml`.

Every stateful part comes in two layers. A specification on values says what one operation or event does (`Step`, `Apply`), and
theorems about whole runs are lemmas about it. Classes with the source's own fields, loops and callbacks are then proved to do
just that, each method's contract equating the abstract value of the new state with the specification of the old.

| file | what it covers |
|---|---|
| `Signatures.dfy` | the tokeniser of D-Bus signatures: one counter and the first bracket kind met are enough |
| `GTypes.dfy` | the recursive translation of signatures into GLib type macros, a client of the tokeniser |
| `Identifiers.dfy` | the reversible encoding of strings as identifiers |
| `TextPipeline.dfy` | whole-string substitution passes for outgoing messages and for XML, as maps over characters |
| `Roster.dfy`, `ContactList.dfy` | editing of libpurple's many-to-many relation between contacts and groups; the signals about it |
| `PublishRequests.dfy` | requests to see the user's presence: three overlapping collections as one automaton per contact |
| `ImChannels.dfy`, `Typing.dfy` | the life of one-to-one channels, the fate of every message; the typing notification timer |
| `MediaChannels.dfy` | call channels, whose closing and whose session's end call each other |
| `StreamRequests.dfy`, `StreamRequestRuns.dfy` | requests for streams, filled by later events |
| `StreamEditing.dfy` | asking libpurple for contents and ending streams by id |
| `MediaBackend.dfy` | numbering and announcing of a call's streams |
| `Connection.dfy` | connecting and shutting down |
| `Parameters.dfy`, `Protocol.dfy` | connection parameters, from the list a protocol publishes to the account they make |
| `Wrappers.dfy` | the option type |

## Where the code does not do what one would expect

Each of these is stated as the exact condition under which the expected property holds, with a lemma that gives an input or a
run for which it fails; the code is modelled as it is.

- `escape_as_identifier` says that it is reversible. It is so on exactly the strings whose characters fit in 8 bits
  (`Identifiers.RoundTrip`); beyond them two strings can become the same identifier (`Identifiers.WideCharactersCollide`).
- `haze_contact_list_set_contact_groups_async` finds groups by collation but keeps a contact's memberships by spelling, so
  that a contact stays on the roster if and only if at least one of the names is spelled as stored
  (`Roster.RegroupKeepsContact`). The names that telepathy-glib passes on have been normalised and are spelled as stored;
  the fallback's name, which stands in for an empty list, has not. With normalised names the contact stays if and only if some
  name is given or the fallback group, if there is one, is stored under just that name (`Roster.NormalizedKeepsContact`); a
  contact in nothing but a fallback group stored under another spelling drops off when it is given no groups
  (`Roster.NoGroupsLosesContact`, `Roster.NoGroupsLosesContactExists`).
- `haze_contact_list_rename_group_async` signals the old name as given. Clients that follow the signals keep the right
  memberships if and only if that is the stored name or nobody was in the group
  (`ContactList.HazeContactList.RenameGroup`); another spelling misleads them (`ContactList.OtherSpellingMisleads`), a normalised
  one does not (`ContactList.NormalizedRenameIsFollowed`).
- Every operation that may make a group announces it, since libpurple does not. `haze_contact_list_request_subscription` alone
  leaves it to libpurple to make the default group, and does not announce it: clients that take groups from the announcements
  are in step afterwards if and only if they knew that group before (`ContactList.HazeContactList.RequestSubscription`,
  `ContactList.DefaultGroupIsNotAnnounced`).
- Stream numbers are 32 bits wide: they are never reused if and only if no more than 2^32 streams are made
  (`MediaBackend.IdsNeverReusedIff`); the next one has the number of the first (`MediaBackend.FirstIdComesBack`).
- Shutting down finishes once if and only if libpurple neither reports an error nor goes down before
  `purple_account_connect` returns; otherwise it finishes twice (`Connection.FinishesOnceIff`,
  `Connection.EarlyErrorFinishesTwice`).
- The comment at src/connection.c:466-468 says that the connection was never begun where a prompt fails without a request of
  libpurple's. It may have been, when libpurple has taken its request back (`Connection.FailedPromptAfterConnecting`); it is
  the flags in `_haze_connection_shut_down` that sort this out (`Connection.FailedPromptDisconnects`).
- On a call that can be changed, the capability test at src/media-channel.c:1338-1345 lets through exactly the requests that
  the contact could not meet (`StreamEditing.GuardLetsThrough`): a contact with audio alone is refused audio and granted video
  (`StreamEditing.GuardIsInverted`).
- A part of the username that is given without the first part is left over as an unknown parameter, and nothing else ever is
  (`Parameters.NothingLeftIff`, `Parameters.LaterPartAlone`). All parts are flagged as having defaults (src/protocol.c:377),
  and the code says that defaults have been applied (src/protocol.c:711-712), so this is not to be expected of telepathy-glib; with
  defaults applied nothing is left over (`Parameters.NothingLeftWithDefaults`).

## What the environment is taken to do

- Roster: one account; a group is found by collation of its name, as `purple_find_group` does, and `purple_group_new` finds
  a group before it creates one (src/contact-list.c:534-537 relies on it); the names that
  telepathy-glib passes on have been normalised, and in any case are such that libpurple can store them; libpurple's default group is the fallback group.
- Clients take the groups there are from the signals that groups were created and renamed, the memberships from changes of
  groups, and who is on the roster from changes and removals of contacts (`ContactList.React`).
- Publish requests: libpurple takes back only a request that is still pending, the record of a superseded one being gone.
- Message channels: libpurple reports to a conversation only while it exists; acknowledged ids are those of pending messages.
- Calls: while it carries out a hang-up, libpurple reports the session's end any number of times; a type of stream does not
  arrive twice while a request for it is open, which the code asserts (src/media-channel.c:242).
- Connection: libpurple reports at most one error per connection and takes the connection down when it is idle next;
  `purple_account_disconnect` reports the disconnection before it returns; telepathy-glib finishes by itself when a connection
  that was never begun is disconnected, ignores a change to the status it is in, and closes the password channel on
  disconnection, so that a prompt does not succeed after it (`Connection.LatePasswordFinishesTwice` shows what this saves).
- Parameters: telepathy-glib passes on only parameters of the protocol, of their types, and always the account. Of the protocol:
  no two of its parameters share a name, no option has the name of the account, the password or a part of the username, and
  where connection_security is folded it is a list of strings that is not listed itself, as the table of known protocols has it.
- `g_markup_escape_text` writes the five predefined entities and character references for control characters;
  `purple_strreplace` replaces leftmost occurrences that do not overlap.

## Model

| member | source | states |
|---|---|---|
| `Signatures.SignatureIter.Next` | tools/libtpcodegen.py:150-202 | one step of the iterator cuts off what the bracket-counting scan passes over, and stops exactly at the end of the text |
| `Signatures.Iterate` | tools/libtpcodegen.py:205-210 | a whole iteration gives the pieces, on any text at all, and terminates |
| `Signatures.ScanStopsAfterType` | tools/libtpcodegen.py:158-202 | at the start of a complete type the scan stops just after it, though it counts only one kind of bracket |
| `Signatures.PiecesAreTypes` | tools/libtpcodegen.py:150-210 | iterating over the text of any list of types, nested anyhow, gives exactly the texts of those types |
| `Signatures.PiecesJoinUp` | tools/libtpcodegen.py:158-202 | for every text the pieces are not empty and concatenate to it |
| `Signatures.RenderAllInjective` | tools/libtpcodegen.py:150-210 | no two lists of types have one text, so that what is read is the only reading |
| `GTypes.TypeToGType` | tools/libglibcodegen.py:103-172 | the text-driven recursion terminates on the length of the text and gives what the specification does, failures included |
| `GTypes.FieldsToGType` | tools/libglibcodegen.py:164-169 | the loop over the fields of a struct builds the accumulated text, and fails as soon as a field does |
| `GTypes.TranslateIsDenote` | tools/libglibcodegen.py:103-172 | on the text of a type the translation is a structural recursion over that type |
| `GTypes.TranslateSucceeds` | tools/libglibcodegen.py:103-172 | it succeeds exactly on the supported types |
| `GTypes.TableIsMap` | tools/libglibcodegen.py:155-160 | the binding of a table names that of its keys and then that of its values |
| `GTypes.PairIsInOrder` | tools/libglibcodegen.py:164-169 | the binding of a struct of two fields names those of the fields in their order |
| `GTypes.ListIsCollection` | tools/libglibcodegen.py:161-163 | the binding of a list of lists or structs names that of its elements |
| `GTypes.BindingsDiffer` | tools/libglibcodegen.py:104-129 | two basic types share a binding exactly if they are the integers of 16 and of 32 bits of like sign |
| `Identifiers.EscapeAsIdentifier` | tools/libtpcodegen.py:37-72 | the loop with its special first character and its fast path computes the encoding |
| `Identifiers.FastPathAgrees` | tools/libtpcodegen.py:49-54 | on every string that the fast path takes, the general loop would return the string itself |
| `Identifiers.EscapeYieldsIdentifier` | tools/libtpcodegen.py:37-72 | the result is never empty, holds only letters, digits and underscores and does not start with a digit |
| `Identifiers.RoundTrip` | tools/libtpcodegen.py:37-72 | decoding gives the string back if and only if all its characters fit in 8 bits |
| `Identifiers.EscapeInjective` | tools/libtpcodegen.py:37-42 | no two 8-bit strings become one identifier |
| `Identifiers.WideCharactersCollide` | tools/libtpcodegen.py:37-42 | beyond 8 bits two strings can become one identifier |
| `TextPipeline.OutgoingIsMap` | src/im-channel.c:404-411 | the three passes over a whole text are one map over its characters, whatever entities the text itself contains |
| `TextPipeline.OutgoingDecodable` | src/im-channel.c:404-411 | that map is uniquely decodable: two texts that are sent alike are alike |
| `TextPipeline.OutgoingRoundTrip` | src/im-channel.c:404-411 | whoever reads an outgoing message as markup, with its entities, character references and line breaks, sees just the text the user meant |
| `TextPipeline.Send` | src/im-channel.c:340-427 | which messages are refused and why, and for the others the exact text sent, which reads as the user meant it, and whether it counts as an automatic answer |
| `TextPipeline.XmlEscapeIsMap` | tools/libtpcodegen.py:213-215 | the five replacing passes are one map over characters: no pass touches what an earlier one wrote |
| `TextPipeline.XmlEscapeInjective` | tools/libtpcodegen.py:213-215 | the escaped string determines the original |
| `TextPipeline.XmlRoundTrip` | tools/libtpcodegen.py:213-215 | reading the five entities as XML has them gives the original back |
| `TextPipeline.XmlEscapeIsPlain` | tools/libtpcodegen.py:213-215 | the escaped string has no angle bracket and no quote in it |
| `Roster.ApplyKeepsValid` | src/contact-list.c:626-1199 | every operation keeps memberships inside existing groups and no two group names that collate |
| `Roster.AddExact` | src/contact-list.c:1044-1067 | adding contacts gives just them just the group that the name finds, which is made if there is none, and never fails |
| `Roster.RemoveExact` | src/contact-list.c:659-789 | after a removal each named contact has lost the group, orphans are in exactly the fallback group, all others are as before |
| `Roster.RemoveFails` | src/contact-list.c:659-745 | a removal fails exactly when the group is the fallback and some named contact has no other, and then changes nothing |
| `Roster.RemoveGroups` | src/contact-list.c:659-789 | a removal takes no group away and makes at most the fallback group, exactly if it leaves orphans |
| `Roster.ReplaceExact` | src/contact-list.c:1129-1166 | set_group_members adds to or takes from each contact just this group, and moves those that had only this one to the fallback |
| `Roster.ReplaceSetsMembers` | src/contact-list.c:1129-1166 | on success the group's members are exactly the contacts asked for |
| `Roster.ReplaceFails` | src/contact-list.c:1129-1166 | it fails exactly when the group is the fallback and some outcast has no other group, and then changes nothing |
| `Roster.ReplaceGroups` | src/contact-list.c:1129-1166 | it makes the group, even for no contacts, and the fallback group exactly if there are orphans, and takes none away |
| `Roster.RegroupExact` | src/contact-list.c:985-1042 | the contact is afterwards in exactly the groups whose stored name is among the names, the fallback standing in for none; others are untouched |
| `Roster.RegroupSpelled` | src/contact-list.c:985-1042 | with names spelled as stored, these are the groups the names resolve to, and never none |
| `Roster.RegroupKeepsContact` | src/contact-list.c:1012-1038 | the contact stays on the roster if and only if some name is spelled as stored |
| `Roster.RegroupGroups` | src/contact-list.c:985-1042 | the groups made are those of the names that there were not, or the fallback group where no name is given; none goes |
| `Roster.NoGroupsMeansFallback` | src/contact-list.c:1003-1038 | a contact that is given no groups ends in the fallback group alone, or in none exactly if that is stored under another spelling |
| `Roster.OtherSpellingLosesContact` | src/contact-list.c:1012-1038 | regrouping a contact into its only group under another spelling, which is not a normalised name, takes it off the roster |
| `Roster.OtherSpellingExists` | src/contact-list.c:1012-1038 | there is such a roster |
| `Roster.NormalizeIdempotent` | src/contact-list.c:941-973 | normalising gives a name that is spelled as stored and that normalising again leaves alone |
| `Roster.AnySpellingRegroups` | src/contact-list.c:941-1042 | however the names are spelled, after normalising and regrouping the contact is in just the groups that collate with them, and in at least one |
| `Roster.NormalizedKeepsContact` | src/contact-list.c:985-1042 | with normalised names the contact stays on the roster if and only if some name is given or the fallback group is stored under its own spelling |
| `Roster.NoGroupsLosesContact` | src/contact-list.c:1003-1038 | a contact whose only group is the fallback under another stored spelling drops off when it is given no groups |
| `Roster.NoGroupsLosesContactExists` | src/contact-list.c:1003-1038 | there is such a roster |
| `Roster.NormalizedIsCareful` | src/contact-list.c:941-1042 | regrouping by normalised names, or by none while the fallback is stored under its own spelling, never takes a contact off the roster |
| `Roster.RenameExact` | src/contact-list.c:1168-1199 | renaming moves the members and nobody else, or fails and changes nothing; either way the roster's contacts stay |
| `Roster.RenameEnds` | src/contact-list.c:1175-1199 | a rename ends with does-not-exist exactly if the old name finds no group, not-available exactly if it does and so does the new one, and succeeds otherwise |
| `Roster.NobodyDropsOff` | src/contact-list.c:626-1199 | an operation keeps every contact on the roster if and only if it is no regrouping under foreign spellings |
| `Roster.NobodyDropsOffInARun` | src/contact-list.c:626-1199 | no sequence of such operations takes anybody off the roster |
| `Roster.NormalizedNobodyDropsOff` | src/contact-list.c:626-1199 | with normalised names an operation keeps everybody on the roster if and only if it does not give a contact no groups while the fallback is stored under another spelling |
| `Roster.NobodyDropsOffInANormalizedRun` | src/contact-list.c:626-1199 | so it is over every sequence of operations with normalised names |
| `Roster.RemoveGroupKeepsContacts` | src/contact-list.c:1097-1126 | removing a group keeps its members on the roster, whichever of its buddies libpurple then deletes |
| `ContactList.HazeContactList.constructor` | src/connection.c:182-183 | when the roster has been received, a client that starts from the relation of the buddy list is in step exactly if no buddy is repeated |
| `ContactList.HazeContactList.AddBuddy` | src/contact-list.c:293-311 | adding a buddy adds its pair; the two signals, of the contact and of the membership, keep replaying clients in step if the pair is new |
| `ContactList.HazeContactList.RemoveBuddy` | src/contact-list.c:313-360 | after removing a buddy, replaying clients have the relation, the contact gone exactly when its last buddy went |
| `ContactList.HazeContactList.AddToGroup` | src/contact-list.c:626-654 | adds the one membership missing, creating the group if no name collates, never repeats a buddy or touches another, and has clients know of the group |
| `ContactList.HazeContactList.PrepareRemoval` | src/contact-list.c:659-745 | finds the orphans and moves them to the fallback, which clients are told of, or fails before the buddy list is touched |
| `ContactList.HazeContactList.RemoveManyFromGroup` | src/contact-list.c:752-789 | deletes every buddy the contacts have in the group, repeated ones too, and no other |
| `ContactList.HazeContactList.RemoveFromGroup` | src/contact-list.c:791-811 | both phases together meet the specification, on failure leave groups and buddies alone, and keep clients in step |
| `ContactList.HazeContactList.DupGroupMembers` | src/contact-list.c:888-939 | lists the members of the group the name finds |
| `ContactList.HazeContactList.SetGroupMembers` | src/contact-list.c:1129-1166 | the loops over outcasts and newcomers meet the specification, leave groups and buddies alone on failure, and keep clients in step, who know of the group even if it is made for nobody |
| `ContactList.HazeContactList.AnnounceGroup` | src/contact-list.c:1145-1148 | announces a group that is there; clients that lacked nothing but that group are in step |
| `ContactList.HazeContactList.SetContactGroups` | src/contact-list.c:985-1042 | adds the wanted buddies before deleting the unwanted ones, as specified, and keeps clients in step, new groups included |
| `ContactList.HazeContactList.RenameGroup` | src/contact-list.c:1168-1199 | meets the specification; clients stay in step if and only if the old name was the stored one or nobody was in the group |
| `ContactList.HazeContactList.RequestSubscription` | src/contact-list.c:522-545 | a contact asked for is put in the fallback group; clients are in step if and only if they knew that group |
| `ContactList.HazeContactList.RemoveContact` | src/contact-list.c:577-605 | deletes every buddy of the contact and no other, and declines the request the contact may have pending |
| `ContactList.RenameReaction` | src/contact-list.c:1190-1196 | clients that replay a rename get the renamed relation if and only if it was signalled under the stored name or nobody was in the group |
| `ContactList.OtherSpellingMisleads` | src/contact-list.c:1190-1196 | there is a roster and a rename under another spelling after which clients have the wrong memberships |
| `ContactList.NormalizedRenameIsFollowed` | src/contact-list.c:941-1199 | a rename under a normalised name is always followed |
| `ContactList.DefaultGroupIsNotAnnounced` | src/contact-list.c:522-545 | a client that starts from an empty roster is not told of the group in which a contact asked for is put |
| `ContactList.LastBuddy` | src/contact-list.c:330-356 | without repeated buddies, a contact's last buddy is in the contact's only group |
| `PublishRequests.PublishList.RequestAuthorize` | src/contact-list.c:454-496 | a request overwrites a pending one of the same contact, which is superseded without any callback, and the contact counts as not published to |
| `PublishRequests.PublishList.AcceptPublishRequest` | src/contact-list.c:388-409 | accepting calls the allowing callback once and moves the contact, or does nothing without a request |
| `PublishRequests.PublishList.RejectPublishRequest` | src/contact-list.c:430-451 | rejecting calls the denying callback once, or does nothing without a request |
| `PublishRequests.PublishList.CloseAccountRequest` | src/contact-list.c:499-519 | a request taken back goes without any callback |
| `PublishRequests.PublishList.AuthorizePublication` | src/contact-list.c:411-428 | the loop accepts each contact of a set, in some order |
| `PublishRequests.AcceptAllEffect` | src/contact-list.c:411-428 | whatever the order, those that had asked are accepted, once each, and nobody else |
| `PublishRequests.PublishList.DupContacts` | src/contact-list.c:173-209 | the contacts listed are exactly those subscribed to, published to or asking |
| `PublishRequests.PublishList.DupStates` | src/contact-list.c:212-267 | the state reported is the one the collections stand for, with the message of a pending request |
| `PublishRequests.ReadsAsAutomaton` | src/contact-list.c:212-520 | over every run the three collections read as one four-state automaton per contact, and pending stays apart from publishing_to |
| `PublishRequests.EveryRequestHasOneFate` | src/contact-list.c:377-520 | over every run each request received has ended in one way or is still waiting, and never both |
| `PublishRequests.RequestsAddUp` | src/contact-list.c:377-520 | received = allowed + denied + cancelled + superseded + pending |
| `PublishRequests.CallbacksOnce` | src/contact-list.c:377-520 | no request ends twice, and none that is pending has had a callback |
| `PublishRequests.NextEventDecides` | src/contact-list.c:377-520 | over every run a pending request waits as it is until the next event about its contact, and that event decides it: accepted it is allowed, rejected it is denied |
| `PublishRequests.FatesAreBrought` | src/contact-list.c:377-520 | over every run there are as many allowing callbacks as acceptances of contacts that were asking, as many denying ones as rejections of such, and so on for requests taken back or superseded |
| `PublishRequests.AskingIff` | src/contact-list.c:377-520 | a contact is asking exactly if the last event about it is a request, and with the message of that request |
| `PublishRequests.RunChangesAreSignalled` | src/contact-list.c:377-520 | over every run, whoever is not signalled has the state and the request that it had before |
| `ImChannels.HazeIMChannel.Close` | src/im-channel.c:83-120 | closing a channel with unread messages announces it anew with the other side as initiator; one without goes; one closed already stays as it is |
| `ImChannels.HazeIMChannel.Destroy` | src/im-channel.c:193-209 | destroying drops the unread messages first, so that the channel is gone for good; on a channel closed already it does nothing more |
| `ImChannels.HazeImChannelFactory.ChannelClosedCb` | src/im-channel-factory.c:233-263 | Closed is passed on, and the channel leaves the table or is announced again |
| `ImChannels.HazeImChannelFactory.GetImChannel` | src/im-channel-factory.c:266-335 | gives the contact's live channel, or makes and announces one |
| `ImChannels.HazeImChannelFactory.RequestChannel` | src/im-channel-factory.c:546-606 | requests answered with a new channel, the existing one or an error, as create and ensure demand |
| `ImChannels.HazeImChannelFactory.WriteIm` | src/im-channel-factory.c:389-404 | incoming messages and errors join the pending ones of the contact's channel, which is made if need be |
| `ImChannels.HazeImChannelFactory.CloseAll` | src/im-channel-factory.c:338-358 | disconnection gives the table up before the channels go, so that none respawns, and each emits Closed once |
| `ImChannels.HazeImChannelFactory.Dispose` | src/im-channel.c:592-614 | disposing of a channel emits Closed unless it is closed already |
| `ImChannels.RunAnnounces` | src/im-channel-factory.c:233-358 | over every run NewChannel and ChannelClosed alternate for each contact, only announced channels are named in answers, and at rest a contact is announced exactly if it has a channel in the table |
| `ImChannels.EveryRequestIsAnsweredOnce` | src/im-channel-factory.c:546-606 | over every run the signals that answer requests, among them the NewChannel signals that carry a token, answer each request once, in order, and nothing else |
| `ImChannels.RequestAddsItsAnswer` | src/im-channel-factory.c:546-606 | a request adds one signal, decided by what clients have been told before: the new channel with its token, the announced channel, or an error |
| `ImChannels.RunAccounts` | src/im-channel.c:83-209 | over every run each message received is pending in one place or has one fate, and none is lost before the disconnection |
| `ImChannels.UnreadMessagesStay` | src/im-channel.c:83-209 | while connected a message leaves a channel exactly by being acknowledged or destroyed |
| `ImChannels.ArrivalsBecomePending` | src/im-channel.c:797-829 | a message becomes pending by being received from the contact, or as a report of an error, and in no other way, and each such message does |
| `ImChannels.ReceivedAreArrivals` | src/im-channel.c:811-820 | over every run the messages accounted for are all that arrived |
| `ImChannels.RunKeepsOrder` | src/im-channel.c:83-209 | over every run each contact's messages are pending in the order in which they arrived |
| `ImChannels.RescuedWhenClosed` | src/im-channel.c:83-120 | a pending message is marked as rescued exactly from when its channel was closed with it unread |
| `ImChannels.FatesAre` | src/im-channel.c:83-209 | a message that stops being pending was acknowledged, destroyed or lost according to what made it stop, for good |
| `ImChannels.ChannelsOpen` | src/im-channel-factory.c:266-335 | a channel comes into being with a request, and then the user is its initiator, or with a message or typing of the contact, and then the contact is |
| `ImChannels.ChannelsClose` | src/im-channel.c:83-209 | while connected a channel goes exactly by being destroyed or closed with nothing unread; closed with something unread it comes back as the contact's; clients are told of either |
| `Typing.Conversation.SetChatState` | src/im-channel.c:252-326 | what is sent to the server, which timer is set or removed, and which states are refused |
| `Typing.Conversation.ResendTyping` | src/im-channel.c:229-249 | a timer sends the state again and is renewed only if libpurple asks for another time |
| `Typing.RunKeepsTimer` | src/im-channel.c:229-326 | over every run at most one timer is alive, it is the one on record, and every repetition is of the state last set |
| `Typing.EventsSay` | src/im-channel.c:229-326 | composing is sent as typing, a pause as having typed, active and inactive as neither; a timer repeats one state |
| `Typing.TimerRunsIff` | src/im-channel.c:229-326 | over every run a timer is running exactly if the last event set or repeated a state that is to be repeated |
| `MediaChannels.HazeMediaChannel.Close` | src/media-channel.c:1012-1032 | closing hangs up unless the session has ended, and emits Closed once although the hang-up calls back into it |
| `MediaChannels.HazeMediaChannel.SessionEnd` | src/media-channel.c:430-470 | the end of a session closes the channel, once |
| `MediaChannels.HazeMediaChannel.RemoveSelf` | src/media-channel.c:1616-1672 | leaving a call hangs up through libpurple, whose reports close the channel, unless the reason makes no sense, in which case nothing changes |
| `MediaChannels.HazeMediaManager.ChannelClosedCb` | src/media-manager.c:164-178 | the channel that closed leaves the list, and no other |
| `MediaChannels.HazeMediaManager.NewMediaChannel` | src/media-manager.c:185-225 | a new channel joins the list under an index never used |
| `MediaChannels.HazeMediaManager.CloseAllChannels` | src/media-manager.c:227-253 | closes every channel of a list that shrinks meanwhile, and leaves the list empty |
| `MediaChannels.HazeMediaManager.FindChannel` | src/media-manager.c:495-515 | the ensuring search finds a live channel with the peer exactly if there is one, and the first such in the list |
| `MediaChannels.RunIsOrderly` | src/media-channel.c:410-1032 | over every run each channel emits Closed once if it is closed and not before, and its close hangs up at most once, before Closed and never after the session ended |
| `MediaChannels.CloseAllCloses` | src/media-manager.c:227-253 | when everything has been closed no channel is live |
| `MediaChannels.CloseHangsUp` | src/media-channel.c:1012-1032 | closing hangs up, once, exactly if the channel is open and has a session that has not ended; other channels are as before |
| `MediaChannels.SessionEndCloses` | src/media-channel.c:430-470 | the end of a session is noted and closes the channel without a hang-up |
| `MediaChannels.RemoveSelfHangsUp` | src/media-channel.c:1616-1672 | leaving hangs up through libpurple, once, exactly if there is a session, and closes the channel if there is none or libpurple reports the end |
| `MediaChannels.CloseAllHangsUp` | src/media-manager.c:227-253 | closing everything hangs up each session under way once and no other |
| `StreamRequests.PendingStreamRequest.MaybeSatisfy` | src/media-channel.c:230-259 | a stream fills the slots of its type, satisfied counts the filled ones, and the reply comes exactly when the last is filled, with the stream of the right type in each slot |
| `StreamRequests.PendingStreamRequest.Free` | src/media-channel.c:261-279 | a request freed while it still owes a reply is cancelled |
| `StreamRequests.RequestQueue.RequestStreams` | src/media-channel.c:1392-1462 | a request for nothing is answered at once, any other joins the list |
| `StreamRequests.RequestQueue.OnNewStream` | src/media-channel.c:344-367 | the loop that deletes as it goes offers the stream to every open request and keeps those not complete |
| `StreamRequests.RequestQueue.OnSessionEnd` | src/media-channel.c:458-462 | the end of the session cancels every open request |
| `StreamRequestRuns.RunAgrees` | src/media-channel.c:187-279 | over every run each request fares exactly as it would by itself |
| `StreamRequestRuns.EveryRequestHasOneFate` | src/media-channel.c:187-462 | a request is answered once: with its streams at the first event by which all its types have arrived, cancelled if the session ends first, and not before either |
| `StreamRequestRuns.EachSlotHasItsStream` | src/media-channel.c:187-259 | the reply to a completed request has, for each type in the order asked for, the stream of that type that arrived since |
| `StreamRequestRuns.OneOfThree` | src/media-channel.c:344-462 | these three cases exclude each other and leave no other |
| `StreamRequestRuns.SessionEndSettlesAll` | src/media-channel.c:458-462 | when the session has ended nothing is open, and every request ever made has had one reply |
| `StreamRequestRuns.RunKeepsNewestFirst` | src/media-channel.c:1436-1437 | over every run the open requests are listed newest first |
| `StreamRequestRuns.StepRepliesInOrder` | src/media-channel.c:344-462 | the requests that one event settles are replied to newest first |
| `StreamEditing.Check` | src/media-channel.c:1293-1346 | an unknown type is refused, the first one named; then the guards on an existing call decide |
| `StreamEditing.RequestContents` | src/media-channel.c:1277-1390 | the calls made are those for the numbers of audio and video asked for, up to the first that libpurple refuses |
| `StreamEditing.SessionsCarryAll` | src/media-channel.c:1358-1387 | these calls carry each content once, none is empty, no smaller number of calls would do, and those that carry both come first |
| `StreamEditing.GuardLetsThrough` | src/media-channel.c:1319-1346 | on an existing call the capability test lets through exactly the requests that name a type the contact lacks; a call that cannot be changed is refused as such |
| `StreamEditing.GuardIsInverted` | src/media-channel.c:1337-1345 | a contact with audio alone is refused audio and granted video |
| `StreamEditing.Deduplicate` | src/media-channel.c:1201-1213 | the nested deletion in place keeps each name where it turned up first, and nothing else |
| `StreamEditing.DistinctKeepsAll` | src/media-channel.c:1201-1213 | what is kept has the same elements, each once |
| `StreamEditing.DistinctKeepsOrder` | src/media-channel.c:1201-1213 | in the order in which they turned up first |
| `StreamEditing.RemoveStreams` | src/media-channel.c:1133-1227 | an id that is not found, or a protocol without the feature, ends nothing; otherwise the streams found are ended in order, without repetition |
| `StreamEditing.EachRequestedStreamEndsOnce` | src/media-channel.c:1177-1222 | a stream is ended once if its id was asked for, however often, and not at all otherwise |
| `MediaBackend.HazeMediaBackend.GetStreamByName` | src/media-backend.c:220-236 | finds the first stream with the name |
| `MediaBackend.HazeMediaBackend.AddStream` | src/media-backend.c:289-389 | a stream gets the next number, modulo 2^32, and is announced if the client is ready |
| `MediaBackend.HazeMediaBackend.StateChanged` | src/media-backend.c:245-264 | the end of a single stream takes it out, the last one taking its place; any other report changes nothing |
| `MediaBackend.HazeMediaBackend.Ready` | src/media-backend.c:510-530 | the first Ready announces every live stream, a repeated one nothing |
| `MediaBackend.HazeMediaBackend.CodecsReady` | src/media-backend.c:409-445 | for one name: whether it is a stream's whose codecs are there; for none: whether all streams' are |
| `MediaBackend.AnnouncedOnce` | src/media-backend.c:245-530 | in every order of events no stream is announced twice, and once ready every live one has been |
| `MediaBackend.WhatIsAnnounced` | src/media-backend.c:289-530 | the announcements are the streams live at the first Ready and then all made since, in order |
| `MediaBackend.IdsNeverReusedIff` | src/media-backend.c:307-307 | stream numbers are never reused if and only if at most 2^32 streams are made |
| `MediaBackend.FirstIdComesBack` | src/media-backend.c:307-307 | after 2^32 + 1 additions the last stream has the number of the first |
| `MediaBackend.ArrayIsTable` | src/media-backend.c:245-264 | despite its reordering by removal the array holds exactly the streams added and not ended, by name |
| `MediaBackend.RemovalSwaps` | src/media-backend.c:245-264 | a removal puts the last stream in the place of the one removed and leaves the others where they are |
| `Connection.HazeConnection.ShutDown` | src/connection.c:562-580 | disconnects the account, finishes at once, or leaves it to the disconnection under way, as the flags say |
| `Connection.HazeConnection.DisconnectedCb` | src/connection.c:321-347 | the nested calls of status change and shutting down come to one change of state, and finishing is put off until idle |
| `Connection.HazeConnection.ReportDisconnectReason` | src/connection.c:287-312 | an error marks the connection as disconnecting first, so that shutting down leaves it to libpurple |
| `Connection.HazeConnection.StartConnecting` | src/connection.c:492-536 | fails, prompts or connects |
| `Connection.HazeConnection.PromptCb` | src/connection.c:435-490 | the answer, whenever it comes, goes to libpurple's request if there is one, with the password or without; otherwise it connects, or disconnects |
| `Connection.RunKeepsConsistent` | src/connection.c:287-580 | over every run the flags, the status and libpurple's connection agree, and calls of finish_shutdown, made and to come, are accounted for |
| `Connection.DisconnectsAtMostOnce` | src/connection.c:562-580 | over every run haze starts at most one disconnection, and none once an error was reported |
| `Connection.FinishesOnceIff` | src/connection.c:287-580 | a settled run has finished exactly once if and only if libpurple called back only after purple_account_connect returned, and else twice |
| `Connection.EarlyErrorFinishesTwice` | src/connection.c:287-580 | a run in which an error comes while purple_account_connect is running finishes twice |
| `Connection.NeverFinishesTooSoon` | src/connection.c:314-347 | before it is disconnected a run has not finished, and with libpurple calling back in time never while its connection is up |
| `Connection.DisconnectedSettles` | src/connection.c:321-347 | from every disconnected state what is under way can be run to a settled one |
| `Connection.EveryContinuationSettles` | src/connection.c:314-347 | however a disconnected run goes on, it has settled exactly when as many events have come as were under way, and then no more of them can come |
| `Connection.UserCanFinish` | src/connection.c:287-580 | from every state that a run reaches outside purple_account_connect a request to disconnect can be followed through to finish_shutdown |
| `Connection.UserWillFinish` | src/connection.c:287-580 | and every continuation of it in which nothing is left under way has settled and finished, once unless libpurple called back early |
| `Connection.FailedPromptDisconnects` | src/connection.c:460-469 | a prompt that fails with no request pending disconnects the account exactly if purple_account_connect was called and nothing is disconnecting yet, and finishes at once exactly if it was not called |
| `Connection.FailedPromptAfterConnecting` | src/connection.c:460-469 | such a prompt can fail after the account was connected |
| `Connection.LatePasswordFinishesTwice` | src/connection.c:476-489 | a prompt that succeeded after disconnection would connect after all and finish a second time |
| `Connection.PromptAnswersRequest` | src/connection.c:448-481 | a prompt that libpurple's request waits for answers it, with the password or with none, and does nothing else |
| `Connection.RequestsAreAnsweredOnce` | src/connection.c:435-560 | over every run libpurple's requests have no more answers than there were requests, those still open not counted |
| `Connection.StatusIs` | src/connection.c:287-580 | the status after any event: which events take the connection down, and which only further |
| `Connection.DisconnectsWhen` | src/connection.c:435-580 | haze disconnects the account exactly when the user, or a failed prompt that no request waits for, ends a connection that was begun and is not being ended |
| `Connection.ConnectsWhen` | src/connection.c:476-536 | haze connects the account exactly when the connection starts with its password at hand, or as soon as a prompt for it succeeds |
| `Connection.FinishesWhen` | src/connection.c:314-580 | finish_shutdown is called at once exactly where nothing was begun, and otherwise from the main loop after libpurple went down |
| `Parameters.UserSplitNameInjective` | src/protocol.c:368-371 | the names usersplit1, usersplit2 and so on are all different, for any number of them |
| `Parameters.SpecsAre` | src/protocol.c:542-600 | the parameters of a protocol are the account, the parts of the username if they are shown, the password, the options and the two that stand for connection_security, each with its type, flags, default and filter, and no others |
| `Parameters.LookupFindsFirst` | src/protocol.c:333-353 | the first renaming of a name is the one that counts |
| `Parameters.OptionNameIs` | src/protocol.c:404-429 | an option has no parameter exactly if it is ignored or of unknown type; the name has hyphens for underscores and loses the prefix facebook_ |
| `Parameters.OptionTypeIs` | src/protocol.c:436-500 | numbers whose name ends in port are 16 bits wide without sign, other numbers are 32, flags and texts are what they are |
| `Parameters.OptionDefaultIs` | src/protocol.c:436-526 | the default is the option's, unless it is an empty text or the parameter is required; a server takes no blanks, a list only its choices |
| `Parameters.RequiredIff` | src/protocol.c:471-479 | required are exactly the account and, on the local network, the names of the user |
| `Parameters.SecretIff` | src/protocol.c:528-534 | secret are exactly the password and options whose name ends in -password |
| `Parameters.SplitsShownIff` | src/protocol.c:567-569 | the parts of the username are parameters exactly if there are any and the first has a name in the table of renamings |
| `Parameters.FoldedIff` | src/protocol.c:139-190 | exactly the protocols that are mended and have connection_security have the two parameters without a name in libpurple |
| `Parameters.OneDestination` | src/protocol.c:542-776 | every parameter stands for exactly one part of the account |
| `Parameters.NothingUnused` | src/protocol.c:678-732 | every parameter of a protocol is used in the translation, so that none of those accepted is left among the unused |
| `Parameters.PurpleIff` | src/protocol.c:678-732 | a parameter is in the translated table under its libpurple name exactly if it was given, with the same value |
| `Parameters.SecurityIs` | src/protocol.c:709-721 | old-ssl wins over require-encryption, and without either encryption is opportunistic |
| `Parameters.SecurityDefaultsAre` | src/protocol.c:162-186 | the defaults of old-ssl and require-encryption for each default of connection_security, and none for one not known |
| `Parameters.OptionValueIs` | src/connection.c:357-388 | a flag is read as up only from true, a number as itself only from one of 32 bits and else as 0, a text only from a text |
| `Parameters.ThreePartText` | src/protocol.c:617-676 | each part of the username, or its default, comes after its separator, in order |
| `Parameters.DefaultSecurityComesBack` | src/protocol.c:139-190 | a connection that is given neither old-ssl nor require-encryption ends with the protocol's own default for connection_security, by way of the defaults made of it |
| `Parameters.DefaultsComeBack` | src/protocol.c:403-776 | an option with a default that is not given ends as an account option with just that default |
| `Parameters.EveryParameterIsKept` | src/protocol.c:734-776 | the account made has the username, the password and each option exactly as given under its Telepathy name, connection_security as folded, and no other option |
| `Parameters.NothingLeftIff` | src/connection.c:425-432 | no parameter is left over, unless a later part of the username is given without the first |
| `Parameters.NothingLeftWithDefaults` | src/connection.c:425-432 | with defaults applied, as src/protocol.c:711-712 has it, nothing is left over |
| `Parameters.LaterPartAlone` | src/connection.c:425-432 | a protocol and parameters, without the defaults, of which one is left over |
| `Protocol.HazeProtocol.LookupParam` | src/protocol.c:333-353 | finds the first renaming of a name |
| `Protocol.HazeProtocol.TranslateOption` | src/protocol.c:403-537 | the parameter for an option, its name, type, flags, default and filter, or none for an option ignored or of unknown type |
| `Protocol.HazeProtocol.JabberFixup` | src/protocol.c:139-190 | two parameters, with the defaults that stand for that of connection_security, are added exactly if the protocol has the option |
| `Protocol.HazeProtocol.GetParameters` | src/protocol.c:542-600 | lists the parameters, the same on every call |
| `Protocol.HazeProtocol.TranslateParameters` | src/protocol.c:678-732 | the loop and the special case give the specified table, and the assertion that nothing is unused holds |
| `Protocol.GetUsername` | src/protocol.c:617-676 | the name is the same whether or not its parts are removed from the table while it is put together, and those removed are just the parts used and the account |
| `Protocol.HazeProtocol.IdentifyAccount` | src/protocol.c:870-883 | the name given is that of the account a new connection makes, for any number of parts |
| `Protocol.HazeProtocol.NewConnection` | src/protocol.c:734-776 | makes the specified account and leaves the specified parameters, or fails exactly if the name is in use |
| `Protocol.ConnectionParameters.SetOption` | src/connection.c:357-388 | an option given is set with the value its type reads and leaves the table, handled or not; one not given changes nothing |
| `Protocol.ConnectionParameters.CreateAccount` | src/connection.c:400-433 | sets each option in turn unless the name is in use, in which case nothing changes |

## Left out

- D-Bus marshalling, GObject types, properties, reference counts and class set-up, which hold no algorithm.
- libpurple and telepathy-glib themselves, beyond the environment described above.
- The calls that tell the server of buddies added and removed (`purple_account_add_buddy`, `purple_account_remove_buddy`); the buddy list is modelled, the server's copy is not.
- ContactList.HazeContactList.constructor: the set-up of the publish collections, which is that of `PublishRequests.PublishList`.
- Several accounts in one buddy list: haze keeps to the buddies of its own account, and the model has only these.
- Roster.RemoveGroupKeepsContacts: says nothing of the group, of the memberships that are left or of the signal that the group is gone, because what libpurple does with a group that is not empty is not visible here.
- PublishRequests.PublishList.DupContacts: takes the contacts with buddies as an argument instead of walking the buddy list.
- The blocking list and privacy settings (src/contact-list.c:1217-1347), which pass straight through.
- ImChannels.HazeImChannelFactory.WriteIm: the texts of messages and the contents of delivery reports; a message is its number and its kind.
- MediaChannels.HazeMediaChannel.SessionEnd: the change of the group's members and the cancellation of open stream requests that go with it; the latter is `StreamRequests.RequestQueue.OnSessionEnd`.
- MediaChannels.HazeMediaChannel.RemoveSelf: the group flag that is taken back afterwards.
- Group membership flags, call states, hold and direction of streams in call channels: tables with no protocol of their own.
- StreamRequests.RequestQueue.RequestStreams: the check that the peer is the call's, and the path taken when libpurple refuses a request (src/media-channel.c:1445-1455), where freeing the request replies before the failure does.
- MediaBackend.HazeMediaBackend.AddStream: NAT traversal and STUN parameters of a stream, which are only passed on.
- The candidates and codecs in src/media-stream.c; readiness of codecs is a parameter of `CodecsReady`.
- Connection: mapping of libpurple's errors to Telepathy's; the order of the interfaces added on signing on.
- Connection: libpurple's own errors during `purple_account_disconnect`, which it does not report.
- Parameters.DefaultsComeBack: takes defaults to be applied as telepathy-glib is said to; what it makes of a default that is flagged but has no value is left open.
- Presence, aliases, avatars, capabilities and mail notification: wrappers and tables.
- The writers of XML-driven files in tools, apart from the type translation.
