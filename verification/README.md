# mini_service_discover: a verified model

A daemon keeps a registry of services; servers register and unregister, and clients look services up by name,
all by UDP frames of 1024 bytes. The protocol exists three times, in C, Go and Java. This project models the
registries, the daemons, the frame codec, the clients and the network between them, and proves what each of them
keeps, where the three agree, and exactly where they do not.

`dafny verify dfyconfig.toml` checks the whole project.

## How it is built

| file | what it models |
|---|---|
| `Types.dfy` | services, keys, requests, replies |
| `Registry.dfy` | the registry as a sequence, as a function of the whole request history |
| `Lookup.dfy` | lookup by name, which uses the position in the whole list |
| `CList.dfy` | the C linked list on the heap, with its possibly stale `tail` |
| `Providers.dfy` | the Go and Java registries as classes; the replies owed to a request |
| `Checksum.dfy` | the additive 16-bit checksum, signed and unsigned, and what it detects |
| `Codec.dfy` | frames, the encoder, the three decoders |
| `JavaHead.dfy` | the Java header class on bit-vectors |
| `Marshal.dfy` | clipping, and the length of Go's JSON text |
| `CDaemon.dfy` | the C daemon on raw buffers, as specification and as program |
| `Unmarshal.dfy` | reading Go's JSON text back |
| `Library.dfy` | a JSON library that meets the assumptions made on it |
| `Daemons.dfy` | the Go and Java daemons on raw buffers; the three on one frame |
| `Clients.dfy` | what the three kinds of client make of the replies they read |
| `SubAddr.dfy` | the sub-address counter and one sweep |
| `Handshake.dfy` | reader, sweeper, shared flag and quit channel, under every interleaving |
| `Network.dfy`, `NetworkRuns.dfy` | any number of C daemons and clients over an unreliable network, at the level of frames |

The repository's README says that the processes broadcast; the code sweeps the addresses of the subnet one by one
(dev.txt gives the reason), and the model follows the code.

Each imperative member (linked list, provider classes, daemons, checksum and scan loops, packet builder, client read
loops) is a method proved against a function, and the lemmas are about those functions. The concurrent and distributed
parts are step relations: a state, a `Move`, `Enabled` and `Apply`; a run is any sequence of enabled moves.

Three things enter as parameters. The JSON libraries are the functions `render` and `parse`; `Faithful` says that an
object of C strings shorter than 100 bytes is printed without a NUL and parses back, and `Speaks` adds that the
daemon's two fixed result objects fit their frames (`Library.dfy` shows that such a library exists). The signedness of
C's `char` is the field `signedChar`; `Passes` says of a text that the C decoder accepts the checksum the C encoder
gives it, which every ASCII text does. Datagrams are whole frames; `Network` delivers any datagram ever sent any
number of times, in any order, or never. What C leaves undefined (a length beyond the buffer, a missing name, a text
that overruns its packet, the unterminated copy of a string of 100 bytes or more, a probe that sends a packet freed
when its call returned) is a separate outcome. `Network.NeverFaulty` proves that no run of harmless calls reaches it if
the sweeps end before the calls return. `NetworkRuns.FaultIff` shows that any other call can reach it, and
`NetworkRuns.LateIff` that a sweep that outlasts its call always can.

## What turns out

* Removing the only node of the C list leaves `tail` at a detached node and the next add writes through it; the list
  still refines "delete the key, append".
* The three daemons answer an inquiry in full exactly when the matches come first in their own list. Otherwise C and
  Java leave matches out (Java may even send nothing), and Go dereferences a nil slot and dies. The Go list is the
  mirror image of the other two, so after one history both are complete only if nothing else, or no match, is
  registered, and they send the same replies in the same order only if no match, or a single service, is.
* Only Go looks at the magic number; C and Java accept a frame under any other as well.
* Signed and unsigned checksums agree exactly when the number of non-ASCII bytes is a multiple of 256. A C client on a
  platform with signed `char` otherwise sends frames that its own daemon rejects.
* Go escapes some characters to six bytes; the text can then outgrow the frame, and the receiving Go daemon panics. A
  service from a client that does not escape them can be stored by the Go daemon although its answer about it makes
  every Go inquirer panic.
* A register frame with a good checksum whose text does not parse puts null names into the Java list. The daemon then
  dies at the next inquiry, and it serves at most as many more requests as there are older entries.
* A C client that sends a string of 100 bytes or more, or a text of more than 1016 bytes, runs into undefined behaviour
  itself; an accepted text of exactly 1016 bytes does so in the daemon that parses it. Any C call may, because outside
  broadcast mode nobody waits for the sweep thread, which can go on sending a packet that has been freed.
* After any completed Go call, and only then, the next one may skip its whole sweep because its sweeper sees the flag
  left over from the call before.
* A delayed copy of a register datagram brings back a service whose unregistration has already succeeded; nothing but a
  register datagram served afterwards can.
* A Java `RegisterClient` that is used again reports its earlier success when no valid reply arrives.

## Model

| member | source | states |
|---|---|---|
| Registry.RemoveKeyDeletes | c/provider/comm/list.c:64-98 | with unique keys, removing the first match deletes the key and keeps the order of the rest |
| Registry.RunUnique | c/provider/comm/list.c:43-62 | after any history no two entries of the C, Java or Go registry have the same key |
| Registry.RunIsSurvivors | c/provider/daemon.c:63-84 | the registry is exactly the list of registrations that no later register or unregister request touches, in order |
| Registry.RegistryMembers | c/provider/daemon.c:63-84 | an entry is registered iff the latest request about its key registered exactly that entry |
| Registry.RegistryKeys | c/provider/daemon.c:63-84 | a key is registered iff the latest request about it was a register request |
| Registry.RegistryOrder | c/provider/comm/list.c:43-62 | the entries stand in the order of their latest registration |
| Registry.GoRegistryMirrors | golang/src/mini_service_discover/provider/comm/provider.go:18-47 | for every history the Go registry is the reverse of the C and Java registry, and unregister requests have the same outcome |
| Lookup.CAnswerFrom | c/provider/daemon.c:85-99 | the inquiry loop returns the maximal run of matches at the head of the list |
| Lookup.JavaAnswerIsMatches | android/MIniServiceDiscoverDaemon/common/com/miniservice/discover/provider/ProviderServer.java:62-75 | Java sends the matches among the first getCount positions |
| Lookup.PrefixChain | c/provider/comm/list.c:101-122 | on one list the C answer is a prefix of the Java answer, that of all matches; what Go sends before a nil slot is the C answer |
| Lookup.CompleteIffGrouped | golang/src/mini_service_discover/provider/comm/provider.go:61-88 | C, Java and Go (without a nil slot) give every match iff no other service stands before a match in the list |
| Lookup.OneNameComplete | c/provider/daemon.c:85-106 | with a single service name registered every inquiry is answered in full by all three |
| Lookup.BothCompleteAfter | golang/src/mini_service_discover/provider/daemon.go:74-87 | after one history C and Go are both complete iff all registered services have the name or none has |
| Lookup.GroupedAfter | c/provider/daemon.c:85-106 | the completeness condition in terms of the history: every surviving match was registered before every other survivor |
| Lookup.MissedExample | c/provider/comm/list.c:107-119 | two registrations suffice for C and Java to miss a registered service, and for Go to crash |
| CList.Acyclic | c/provider/comm/list.c:49-61 | the chain from the head never meets a node twice |
| CList.Shortcut | c/provider/comm/list.c:79-88 | once the predecessor points past a node, the others still form a chain |
| CList.ServiceInfoList.Remove | c/provider/comm/list.c:64-98 | removes the first entry with the key, returns 0 or -1; emptying the list leaves the stale tail |
| CList.ServiceInfoList.Add | c/provider/comm/list.c:43-62 | deletes the key and appends the entry, from any valid list, stale tail included; the tail is not stale afterwards |
| CList.ServiceInfoList.Append | c/provider/comm/list.c:52-61 | the head and tail writes append one node, also through a detached tail |
| CList.ServiceInfoList.Get | c/provider/comm/list.c:101-122 | the entry at the position, if it has the name |
| Providers.Provider.AddInfo | golang/src/mini_service_discover/provider/comm/provider.go:18-22 | deletes the key and pushes the entry at the front |
| Providers.Provider.RemoveByName | golang/src/mini_service_discover/provider/comm/provider.go:34-47 | removes the first entry with the key and reports whether there was one |
| Providers.Provider.GetCount | golang/src/mini_service_discover/provider/comm/provider.go:61-72 | the number of matches |
| Providers.Provider.GetAll | golang/src/mini_service_discover/provider/comm/provider.go:74-88 | slot i holds the entry at position i if that matches, and stays nil otherwise |
| Providers.ServiceInfoList.Add | android/MIniServiceDiscoverDaemon/common/com/miniservice/discover/provider/ServiceInfoList.java:19-22 | removes the key and appends the entry, unless a null name comes before the key |
| Providers.ServiceInfoList.Remove | android/MIniServiceDiscoverDaemon/common/com/miniservice/discover/provider/ServiceInfoList.java:30-38 | removes the first entry with the key and reports whether there was one; throws, changing nothing, iff a null name is met first |
| Providers.ServiceInfoList.GetCount | android/MIniServiceDiscoverDaemon/common/com/miniservice/discover/provider/ServiceInfoList.java:40-50 | the number of matches, or an exception iff there is a null name |
| Providers.ServiceInfoList.Get | android/MIniServiceDiscoverDaemon/common/com/miniservice/discover/provider/ServiceInfoList.java:52-62 | the entry at the position, if it has the name; otherwise an exception iff there is a null name |
| Providers.FullIffGrouped | c/provider/daemon.c:85-106 | each daemon sends the intended replies iff the matches come first in its list |
| Providers.RepliesByPosition | android/MIniServiceDiscoverDaemon/common/com/miniservice/discover/provider/ProviderServer.java:62-75 | with m matches at the head of the list: C sends those, or "not found" if m is 0; Go sends them; Java sends the matches among as many entries as there are matches in all; Go and Java send "not found" iff there is none |
| Providers.JavaSilentIff | android/MIniServiceDiscoverDaemon/common/com/miniservice/discover/provider/ProviderServer.java:62-75 | Java answers an inquiry with nothing at all iff there are matches, but none among as many positions at the head of its list |
| Providers.InquiriesCompared | golang/src/mini_service_discover/provider/daemon.go:74-87 | from mirrored lists, C and Go send the same replies to an inquiry iff nothing matches or the list has one entry |
| Providers.DaemonsAgree | golang/src/mini_service_discover/provider/daemon.go:54-90 | after one history register and unregister get equal replies from C, Java and Go; an inquiry gets the intended replies from all three iff only matches or none are registered, and equal replies from all three iff nothing matches or one service is registered |
| Daemons.DaemonData.ProcessData | golang/src/mini_service_discover/provider/daemon.go:42-97 | on any buffer: crashes as it reads iff an overlong length stands under the magic number; otherwise a wrong magic number or checksum, an unparsable text or an unknown action changes nothing and sends nothing; a request takes its registry step; an inquiry is answered with the matches at the head of the list, and crashes iff there are more matches than those |
| Daemons.GoReadIff | golang/src/mini_service_discover/provider/daemon.go:42-55 | the Go daemon reads a request iff magic number, length and checksum are right, the action is one of three and the text parses; it panics iff an overlong length stands under the magic number |
| Daemons.DaemonData.WriteAll | golang/src/mini_service_discover/provider/daemon.go:76-83 | sends the slots up to the first nil one, and crashes iff there is one |
| Daemons.ProviderServer.Process | android/MIniServiceDiscoverDaemon/common/com/miniservice/discover/provider/ProviderServer.java:42-81 | on any buffer: what Java does not hear changes nothing and sends nothing; an inquiry is answered with the matches among as many entries as there are matches, or "not found"; everything else, null names and exceptions included, exactly as the frame reads |
| Daemons.JavaReadIff | android/MIniServiceDiscoverDaemon/common/com/miniservice/discover/provider/Protocal.java:180-218 | the Java daemon hears a frame iff its length and signed checksum are right and its action is one of three; the exact lengths on which it throws |
| Daemons.ProviderServer.Answer | android/MIniServiceDiscoverDaemon/common/com/miniservice/discover/provider/ProviderServer.java:66-72 | one positional lookup for each index below the count |
| Daemons.NamedServe | android/MIniServiceDiscoverDaemon/common/com/miniservice/discover/provider/ProviderServer.java:42-81 | on a list without null names the Java daemon takes the registry step of the request and sends the replies it owes (by position: Providers.RepliesByPosition) |
| Daemons.NullIff | android/MIniServiceDiscoverDaemon/common/com/miniservice/discover/provider/Protocal.java:195-218 | a list without null names gets one, at its end, from a register frame whose text does not parse, which is answered with success, and from nothing else; such an unregister or inquiry frame is answered "not found"; only a length outside the buffer throws |
| Daemons.SurvivesIff | android/MIniServiceDiscoverDaemon/common/com/miniservice/discover/provider/ServiceInfoList.java:30-62 | with a null name in the list a request is served, with success, iff it registers or unregisters a key that stands before the null name; it takes that entry away, and a registration appends its own; the null name stays |
| Daemons.NullEndsDaemon | android/MIniServiceDiscoverDaemon/common/com/miniservice/discover/provider/ServiceInfoList.java:30-62 | with a null name in the list n more requests can be served iff at least n entries stand before it, and no inquiry can |
| Daemons.Interoperable | golang/src/mini_service_discover/provider/daemon.go:42-55 | a portable request frame from any client is the same request to all three daemons, whose registries it keeps mirrored |
| Daemons.StoredButUnanswerable | golang/src/mini_service_discover/provider/comm/protocal.go:155-167 | two names of n unescaped `<` bytes, n below 100, are registered by Go; its answer about them makes the inquirer panic iff n is at least 80 |
| Checksum.GetChecksum | c/provider/comm/protocal.c:28-37 | the 16-bit sum of signed or unsigned bytes, as the platform's `char` is |
| Checksum.SumBytes | golang/src/mini_service_discover/provider/comm/protocal.go:105-110 | the 16-bit sum of unsigned bytes of a stretch of the buffer |
| Checksum.GetChecksumByOffset | android/MIniServiceDiscoverDaemon/common/com/miniservice/discover/provider/Protocal.java:63-70 | the signed 16-bit sum of signed bytes; nothing for a negative length |
| Checksum.SignednessMatters | c/provider/comm/protocal.c:28-37 | signed and unsigned checksums agree iff the number of bytes from 0x80 up is a multiple of 256 |
| Checksum.RaisingDetected | c/provider/comm/protocal.c:222-233 | raising 1 to 257 payload bytes always changes the checksum |
| Checksum.RaisingBoundSharp | c/provider/comm/protocal.c:222-233 | n raised bytes and no other change can leave it unchanged iff n is at least 258 |
| Checksum.SignedRaisingDetected | android/MIniServiceDiscoverDaemon/common/com/miniservice/discover/provider/Protocal.java:63-70 | raising 1 to 257 bytes in the order of signed bytes always changes the signed checksum |
| Checksum.SignedMissesIff | android/MIniServiceDiscoverDaemon/common/com/miniservice/discover/provider/Protocal.java:63-70 | a raise of 1 to 257 bytes in the unsigned order leaves the signed checksum unchanged iff it adds exactly 256 for each byte it takes out of ASCII |
| Checksum.SignedMissesTwo | android/MIniServiceDiscoverDaemon/common/com/miniservice/discover/provider/Protocal.java:63-70 | two bytes are enough for that |
| Checksum.PermutationUnnoticed | golang/src/mini_service_discover/provider/comm/protocal.go:107-110 | permuting the payload changes neither kind of checksum |
| Codec.EncodeParts | golang/src/mini_service_discover/provider/comm/protocal.go:130-167 | the header fields and the payload area of an encoded frame read back |
| Codec.WireFormat | golang/src/mini_service_discover/provider/comm/protocal.go:130-167 | every byte of an encoded frame: 0xEE 0xFF, then action, length and checksum with the low byte first, then 1016 bytes of payload and zeros |
| Codec.Acceptance | c/provider/comm/protocal.c:235-243 | which of C, Go and Java accept a frame written with the signed or the unsigned checksum, exactly |
| Codec.DecodersRelated | golang/src/mini_service_discover/provider/comm/protocal.go:99-117 | on any buffer: Go accepts what C accepts under the magic number and panics where C reads out of bounds; where Java throws or takes the length for negative |
| Codec.ChecksumDecides | c/provider/comm/protocal.c:221-243 | on any buffer with a length inside it the unsigned checksum decides in C, and the signed one in Java |
| Codec.MagicOnlyInGo | golang/src/mini_service_discover/provider/comm/protocal.go:99-104 | C and Java judge and read two buffers alike that differ in the magic number only; Go ignores a wrong one |
| Codec.SignedClientRejected | c/provider/comm/protocal.c:28-37 | a signed-`char` C frame with 1 to 255 non-ASCII bytes is rejected by C and Go |
| Codec.SignedClientRejectedExample | c/provider/comm/protocal.c:221-243 | a payload of three bytes, one of them 0xE9, is such a frame |
| Codec.OversizePanics | golang/src/mini_service_discover/provider/comm/protocal.go:155-167 | a Go frame overruns its reader (panic in Go, out of bounds in C, no text in Java) iff the text exceeds 1016 bytes |
| Codec.TextRecovered | golang/src/mini_service_discover/provider/comm/protocal.go:71-83 | C, Go and Java each find the payload's end iff: no NUL and a spare byte; a closing brace last; always |
| Codec.RoundTrip | android/MIniServiceDiscoverDaemon/common/com/miniservice/discover/provider/Protocal.java:180-200 | every portable payload with every action decodes to the same action and bytes in all three, whoever wrote it |
| Codec.CorruptionRejected | golang/src/mini_service_discover/provider/comm/protocal.go:99-117 | under the same header, raising only or lowering only 1 to 257 summed bytes makes C and Go reject the frame |
| Codec.CorruptionRejectedByJava | android/MIniServiceDiscoverDaemon/common/com/miniservice/discover/provider/Protocal.java:180-193 | under the same header, raising only or lowering only 1 to 257 summed bytes, in the signed order, makes Java reject the frame |
| Codec.JavaMissesIff | android/MIniServiceDiscoverDaemon/common/com/miniservice/discover/provider/Protocal.java:180-193 | under the same header, a raise of 1 to 257 summed bytes in the unsigned order is accepted by Java iff it adds exactly 256 for each byte it takes out of ASCII |
| Codec.ReorderingAccepted | golang/src/mini_service_discover/provider/comm/protocal.go:99-117 | under the same header, any reordering of the summed bytes is judged like the original by all three |
| Codec.DecodeAction | c/provider/comm/protocal.c:221-243 | the C decoder on a buffer |
| Codec.GetJson | golang/src/mini_service_discover/provider/comm/protocal.go:71-83 | the scan returns everything up to the last closing brace |
| Codec.BuildPkt | c/provider/comm/protocal.c:39-77 | header, checksum and payload written into a zeroed buffer give the encoded frame |
| JavaHead.HeadRoundTrip | android/MIniServiceDiscoverDaemon/common/com/miniservice/discover/provider/Protocal.java:30-60 | header decoding inverts encoding for all four shorts |
| JavaHead.BytesRoundTrip | android/MIniServiceDiscoverDaemon/common/com/miniservice/discover/provider/Protocal.java:47-60 | header encoding inverts decoding for every eight bytes |
| JavaHead.SameHeaderFields | golang/src/mini_service_discover/provider/comm/protocal.go:66-69 | on the same bytes Java's shorts are the C and Go header words modulo 2^16 |
| JavaHead.ValueIsToShort | android/MIniServiceDiscoverDaemon/common/com/miniservice/discover/provider/Protocal.java:30-32 | the value Java gives a short is the signed narrowing of that word |
| Marshal.Clip | golang/src/mini_service_discover/provider/comm/protocal.go:169-175 | the first 100 bytes, or the whole string if it is that short |
| Marshal.ClippedStays | golang/src/mini_service_discover/provider/comm/protocal.go:169-186 | clipping a service twice is clipping it once, and changes nothing iff every string has at most 100 bytes |
| Marshal.ShortEscapesFit | golang/src/mini_service_discover/provider/comm/protocal.go:177-186 | with escapes of at most two bytes the text has at most 867 bytes and the frame reads back whole |
| Marshal.FrameReadableIffFits | golang/src/mini_service_discover/provider/comm/protocal.go:155-186 | with escapes of at most six bytes the frame reads back whole iff the text fits, and makes Go panic otherwise |
| Marshal.OverflowExample | golang/src/mini_service_discover/provider/comm/protocal.go:155-186 | two names of a hundred six-byte escapes overflow the frame |
| Marshal.AnswerReadableIffFits | golang/src/mini_service_discover/provider/daemon.go:76-83 | the Go answer about any stored service, which is marshalled again without clipping, reads back whole iff its text fits, and makes the inquirer panic iff the length modulo 2^16 does not fit |
| Unmarshal.ReadsBack | golang/src/mini_service_discover/provider/comm/protocal.go:145-153 | with escapes that never end a string, whatever the strings hold, each escaped value is found under its own name, and the port as the number |
| CDaemon.RequestRead | c/provider/comm/protocal.c:245-292 | the daemon reads the frame of a request as that request, ignores it if the signed checksum does not pass, and parses past the buffer iff a passing text has exactly 1016 bytes |
| CDaemon.ReadFaultyIff | c/provider/comm/protocal.c:221-292 | the daemon reads a buffer into undefined behaviour iff its length leaves it, or it is an accepted request whose text is not terminated or is a result object |
| CDaemon.ActionsOnTheWire | golang/src/mini_service_discover/provider/comm/protocal.go:38-47 | requests carry the actions 0, 1, 2, replies of success 3 and of failure 4 |
| CDaemon.ResultRead | c/provider/comm/protocal.c:305-338 | the frame of a result is read as success without a reason, or as failure with the reason "service no found" |
| CDaemon.HandleBuffer | c/provider/daemon.c:24-118 | the program on any buffer, about its heap list and the frames it sends: bad checksum, unknown action or unparsable text change nothing and send nothing; otherwise exactly the request in the buffer takes its registry step, with at least one reply |
| CDaemon.ServeDefined | c/provider/daemon.c:63-108 | with a registry of printable entries no reply overruns its packet |
| CDaemon.RunOnRequests | c/provider/daemon.c:15-124 | the frames of any history of sendable requests leave the registry that the ones with a passing checksum determine, and each of those is answered, in order, from the registry it meets |
| CDaemon.ServerLoop | c/provider/daemon.c:15-124 | the program, with its heap list and its reused buffer, does exactly what the specification of the run says |
| CDaemon.ServeRequest | c/provider/daemon.c:63-108 | one request: the list takes its step, and the frames of the owed replies are sent |
| CDaemon.AnswerInquiry | c/provider/daemon.c:86-99 | the inquiry loop sends the frames of the maximal run of matches |
| Clients.CheckResult | c/provider/server.c:20-59 | returns 0 iff some frame read is a valid SUCC, in whatever order |
| Clients.CheckInquiry | c/provider/client.c:19-68 | the collected list is that of adding the services in the frames one by one, frames of any other kind changing nothing, and never holds a key twice |
| Clients.CollectsServices | c/provider/client.c:27-62 | whatever frames are read, the list collected is that of the services in the valid successes among them |
| Clients.CollectFromFrames | c/provider/client.c:27-62 | the frames of any arrivals, repeated and reordered, build the list of adding them one by one |
| Clients.CollectIdentity | c/provider/client.c:34-46 | the list equals the arrivals iff no key arrived twice |
| Clients.CollectsTheAnswer | c/provider/client.c:27-62 | it equals the daemon's answer on exact delivery, and is a permutation of it when every reply arrives at least once, ordered by last arrival |
| Clients.RegisterClient.RunRegister | android/MIniServiceDiscoverDaemon/common/com/miniservice/discover/provider/RegisterClient.java:77-100 | the loop leaves the outcome of the last valid reply and the reason of the last FAIL |
| Clients.LastValidDecides | android/MIniServiceDiscoverDaemon/common/com/miniservice/discover/provider/RegisterClient.java:83-99 | the last valid SUCC or FAIL is the outcome |
| Clients.LastFailGivesReason | android/MIniServiceDiscoverDaemon/common/com/miniservice/discover/provider/RegisterClient.java:83-99 | the last FAIL gives the reason, whatever follows it; without one the reason stays |
| Clients.StaleOutcome | android/MIniServiceDiscoverDaemon/common/com/miniservice/discover/provider/RegisterClient.java:77-100 | a client used before reports what a fresh one would iff it had not succeeded or some valid reply arrives |
| Clients.GetResult | golang/src/mini_service_discover/provider/server.go:71-99 | the first frame alone decides: success iff there is one, with the magic number, an accepted checksum and the action SUCC; the three reasons of a failure |
| Clients.GetInquiryResult | golang/src/mini_service_discover/provider/client.go:52-80 | the read loop against its specification |
| Clients.PanicsIff | golang/src/mini_service_discover/provider/client.go:60-80 | the first frame that is not a good SUCC ends the list with the services before it, or panics iff its length is overlong or it is a SUCC that does not parse |
| Clients.GoCollectsVerbatim | golang/src/mini_service_discover/provider/client.go:60-80 | Go keeps the services as they arrive, repetitions included, up to the first frame that is not a good SUCC |
| Clients.InquiryRuns | golang/src/mini_service_discover/provider/client.go:48-80 | for any frames on which the read loop does not panic, the handshake has a run of the whole call with exactly the reads of the loop, one service for each good one |
| Clients.OutcomesOfAll | golang/src/mini_service_discover/provider/server.go:71-99 | on any sequence of replies and frames nobody accepts, the empty one included: C reports success iff some reply is one, Go iff the first frame is, Java iff the last reply is |
| Clients.AgreeIff | c/provider/server.c:27-58 | on any such sequence the three agree iff there is no success, or both the first frame and the last reply are successes |
| Clients.OutcomesAgreeIff | c/provider/server.c:27-58 | on a non-empty sequence of valid replies C, Go and a fresh Java client agree iff the first and the last are successes or all are failures |
| Clients.OutcomesAgree | c/provider/server.c:27-58 | in particular they agree when the replies are all alike |
| Clients.OutcomesDiffer | golang/src/mini_service_discover/provider/server.go:81-99 | on one SUCC and one FAIL, Go and Java decide by order in opposite ways, C succeeds either way |
| SubAddr.UdpClient.PrepareSubAddr | c/provider/comm/udp.c:328-344 | addresses the current octet, advances up to 254, and finishes there |
| SubAddr.UdpClient.Broadcast | c/provider/client.c:119-134 | for every behaviour of the flag the probed octets are 1, 2, ..., k, and k < 254 only if the flag was seen set |
| Handshake.OneTokenPerCall | golang/src/mini_service_discover/provider/client.go:82-100 | in every interleaving of any number of calls: no send blocks, at most one token, and between calls none, with one sent and received per call; sweepers never overlap |
| Handshake.ProbesInOrder | golang/src/mini_service_discover/provider/client.go:88-101 | each sweep probes 1..k in order; if cut short, a read of its call had returned, or the flag was left over and nothing was probed |
| Handshake.ServerReadsOnce | golang/src/mini_service_discover/provider/server.go:60-75 | a register or unregister call never reads again once a read has returned |
| Handshake.ReadSequences | golang/src/mini_service_discover/provider/client.go:58-82 | a sequence of reads is that of some whole call with n replies arriving iff it is one read on a ServerData, or good replies, at most n, up to a time-out or a bad one on a ClientData |
| Handshake.NoDeadlock | golang/src/mini_service_discover/provider/server.go:60-75 | a call in progress always has an enabled move; the sweeper never waits for the reader, and the reader waits for the token only |
| Handshake.CallsEnd | golang/src/mini_service_discover/provider/client.go:39-101 | no interleaving makes more moves within a call than the measure allows, without any fairness assumption |
| Handshake.CallBound | golang/src/mini_service_discover/provider/server.go:45-115 | with n replies arriving a call takes at most 2n + 768 moves, and where no move is left it has ended with an empty channel |
| Handshake.CutShortIff | golang/src/mini_service_discover/provider/client.go:92-95 | a sweeper at its check stops before any read of its call has returned iff a call came before and this one has not cleared the flag, having probed nothing; and it always stops once the reader has set the flag |
| Handshake.NextCallMayProbeNothing | golang/src/mini_service_discover/provider/client.go:48-58 | between calls, some interleaving of the next call skips its whole sweep on the left-over flag iff a call has been completed before |
| Network.ServeKeeps | c/provider/daemon.c:24-118 | a daemon serving any datagram keeps the invariant over registries, log, datagrams in flight and calls |
| Network.RepliesInFlight | c/provider/daemon.c:85-106 | a daemon that serves a request adds exactly the frames of all the replies it owes to the network, addressed to the asker |
| Network.ReadKeeps | c/provider/client.c:27-62 | a client reading any reply keeps it |
| Network.ReceiveMeans | c/provider/client.c:27-62 | the frames a client reads into undefined behaviour, exactly; and nothing but an accepted SUCC changes what it has |
| Network.Origin | c/provider/daemon.c:63-84 | an entry standing in a registry has an event that registered it, after which nothing touched its key |
| Network.NeverFaulty | c/provider/comm/protocal.c:39-147 | in no run of harmless calls (strings under 100 bytes, a text that fits and leaves room for its terminator or is rejected) whose sweeps end before the calls return does a daemon or client read beyond a buffer, meet a missing name, overrun a packet, copy a string without its terminator, or send a freed packet |
| Network.ReportedWasRegistered | c/provider/client.c:27-62 | each service an inquiry reports has the name asked for and was, when its daemon answered, the latest word on its key there, from a register call with the same five fields |
| Network.SuccessWasServed | c/provider/server.c:27-58 | a register or unregister call returns 0 only if a daemon took the matching successful step for that call |
| Network.ReportedSince | c/provider/client.c:27-62 | what an inquiry begun after some point of a run reports was answered after that point, and was registered at that daemon after every unregistration it had served by then |
| Network.SuccessSince | c/provider/server.c:27-58 | the successful step behind a return of 0 comes after the beginning of the call |
| NetworkRuns.FaultIff | c/provider/comm/protocal.c:47-50 | given calls, with sweeps that end before the calls return, can end in undefined behaviour iff one of the calls is not harmless |
| NetworkRuns.LateIff | c/provider/client.c:70-134 | given calls can end in a sweep thread sending a freed packet iff there is a call at all |
| NetworkRuns.Exchange | c/provider/server.c:61-130 | a call that is probed, served and answered with passing texts has the outcome of its first reply, from every reachable state |
| NetworkRuns.WholeInquiry | c/provider/client.c:19-134 | from every reachable state some run of an inquiry reports the whole answer of a daemon, in order |
| NetworkRuns.Unanswered | c/provider/server.c:20-59 | from every reachable state some run loses what a call sends; the call then returns -1, or an empty list, and leaves no trace |
| NetworkRuns.Resurrection | c/provider/daemon.c:64-71 | some run reports a service whose successful unregistration had returned before the inquiry began |
| NetworkRuns.BackAfterUnregister | c/provider/daemon.c:64-84 | after an unregistration at a daemon the key is back iff a register call for it, new or delayed, was served there since and nothing touched it afterwards |

## Left out

- Codec.DecodeAction: stated for lengths inside the buffer, because C reads whatever memory follows it otherwise; `Codec.CDecode` gives that case an outcome of its own.
- Codec.BuildPkt: stated for texts that fit, because the C builder writes past its packet otherwise; Go's cut-off copy is in `Codec.Encode`.
- CDaemon.ServerLoop: stated for runs without undefined behaviour, like CDaemon.HandleBuffer; `CDaemon.RunOnRequests` shows that sendable requests cause none.
- Daemons.ProviderServer.Process: a text with only some of the fields, which leaves only the later ones null, is not captured.
- Clients.RegisterClient.RunRegister: stated for frames on which the Java decoder throws no exception.
- Clients.GetResult: stated for a first frame on which the Go decoder does not panic.
- Sockets, timeouts, interface enumeration and the partial read and write loops of udp.c, udp.go, UDPClient.java and UDPServer.java: datagrams are whole frames, and a read either delivers one or fails.
- The JSON libraries cJSON, encoding/json and org.json are not part of this model; printing and parsing are parameters, a text that is not terminated inside the buffer counts as undefined in C, and of Go's printer only the layout and the length of a service text are modelled.
- Reuse of a port by a later call: every call in `Network` has a socket of its own.
- The C sweep thread that is not joined outside broadcast mode, beyond its probes: a probe after the return counts as undefined (`late` and `faulty`), the thread's other reads of the freed client object do not.
- Ownership and leaks of C memory; the list keeps entries as values, so aliasing of `info` is not captured.
- Go's nil dereference of an unparsable reply is the outcome `Panicked`; what a Go program does after it is not modelled.
- Weak memory: the flag `recEnd` is read and written atomically in one order.
- Concurrent calls on one Go client object, and `Quit`, which closes the channel.
- `ServiceInfoList.clear`, which removes while iterating, and `Provider.Get`, `Provider.Add` and `InquiryClient`, which would repeat members above.
- Broadcast mode, the Android activities, the test programs, the Makefiles and logging.
