# DartSync: a verified model

DartSync keeps a directory in step across peers through a central tracker. A
peer reports its whole file table whenever its directory changes; the tracker
merges reports by "newest (timestamp, size) wins", remembers up to five peers
that reported each newest version, and broadcasts the merged table; a peer compares
each broadcast with its own table and fetches newer files in pieces from all the
peers listed. The project models three layers of this and joins them.

**The tracker and the peer processes, in place.** `FileTables` holds the linked
lists of nodes with their fixed provider arrays; `TrackerProcess.Tracker` and
`PeerProcess.Process` hold the globals and the functions that change them, loop
by loop. Every method equates the new state with a function on table values
(`Providers`, `Merge`, `Members`, `Sessions`, `Peers`), and the theorems are
about those functions. `Links`, `Framing`, `Layouts` and `Stream` model the two
wire directions, and `Connections` proves that serving a connection takes the steps
of the protocol below.

**The protocol.** `Protocol` is a transition system: one tracker, any number of
peers that join and leave, and a FIFO channel each way per peer. `Invariant`
proves an invariant kept by every step, `Convergence` says what it means,
`Settling` proves that the system settles, `Sources` says what the peers named as
sources have, and `Jobs` which steps keep running downloads and records together.
`Effects` says what each single step does to a peer, and `Heartbeats` what packets do
to the peer list.

**The transfer.** `Packets` and `Download` follow a file from whatever the
providers' disks hold through the split into pieces and packets to the joined
file; `Service` applies the result to every download the protocol can start, with
what its sources have in the state it runs in; `Replicas` adds the disks to the
protocol and proves that its agreement is agreement on bytes.

`dafny verify dfyconfig.toml` checks everything.

## Conditions

- A modification event does not lower the (timestamp, size) on record for a file
  that is not being downloaded. `Convergence.SelfDownloadIffLowered` shows what
  happens exactly when one does: the peer downloads from itself. Timestamps have
  a granularity of one second (peer/monitor.c:251-252), so shrinking a file twice
  in a second lowers it.
- The system theorems are for runs without deletions. What deletions do to one
  peer is exact: it goes on having one download per record being fetched, with that
  record's version, as long as no such record is marked deleted, and no longer
  (`Jobs.StepKeepsMatchedIff`, `Jobs.RunStaysMatchedIff`;
  `Jobs.DeletionDoublesDownload` shows what follows). What they do to single steps
  is in `DeletionNoticedIffLater`, `TombstoneBuries` and
  `TombstoneFetchedIffUnknown` (module `Convergence`). The theorems about one pass
  and about the peer's table include deletions.
- `Settling.EventuallyAllAgree` assumes that the system keeps taking steps, among
  them that the monitor notices every finished download at some time. In `Protocol`
  every download that is started can run to its end; one that ends its process counts
  as a departure. `Replicas` lets a download finish only if it yields a file.
- The code has no locks: a handshake packet, a pass over a broadcast and a monitor
  event are each one atomic step, and a report is a snapshot of the table.
- A peer that joins is accepted and answered in one step. It may be one that left
  before. Peers have distinct addresses.
- Peers that leave are not the head of the tracker's list, which delete_peer never
  unlinks (tracker/tracker.c:299-306). Claims about sweeps are for distinct sockets.
- `strlen` of a buffer without a zero byte is the length of the buffer.
- A (name, timestamp, size) has one content: no two peers make different files of one
  name and equal size in the same second, and a file changed within the second changes
  its size.
- In `Service` a record that is neither being fetched nor just fetched is true of
  its peer's disk, and the disks are looked at in one state; `Replicas` proves the
  former from the steps. There an edit and its event are one step, an event about a
  file being fetched or just fetched comes from the download, and a download begins
  with no temporary files and finds its sources as they are when it finishes.
- Decompression undoes compression, and decompressing nothing fails, which ends the
  process (peer/datacompress.c:53-70). Nothing else is assumed of the library.
- A source one of whose compressed packets is longer than the data field it is
  copied to (peer/p2p.c:119) counts as sending nothing; the overrun itself is not
  modelled.
- Joining a thread that was never created (peer/peer.c:307-309, for pieces that are
  skipped) returns. `joinable` in `Download.PtpDownload` says exactly when that is
  not needed, and a successful download from nothing never needs it.
- On the stream to a peer, names have at most 255 characters, addresses at most 16,
  and numbers fit into the fields of the C structs.
- File and piece sizes fit in `int`.

## What the code does not guarantee

Each of these is stated as an exact condition or by an example.

- The tracker does not look at the types of the records it is sent, and so lists
  peers that are still fetching a file (`Sources.ListedWhileFetchingIff`). A download
  that names such a peer can end the process (`Sources.SourceMayBeFetching`,
  `Service.ReachableDownloadFails`).
- A download without sources leaves an empty file, later reported as the version
  (`Download.DownloadIsFileIff`).
- With two providers a file of one byte arrives as two bytes, if at all
  (`Download.SplitTiles`, `Download.DownloadIsFileIff`).
- With three or more providers a file with fewer bytes than there are providers
  less one cannot be joined, because the empty pieces are never fetched and their
  temporary files are missing (`Download.FreshDownloadIsFileIff`).
- A temporary file left incomplete spoils the file, since the whole piece is
  appended to it (`Download.DownloadIsFileIff`).
- A packet with a non-zero byte after a zero byte is truncated
  (`Packets.ArrivesIffClean`), and one that does not compress overruns a buffer
  (`Download.HolderDeliversIff`).
- A table packet that announces nothing, received while no table is expected, and a
  last node that comes with a link make the handshake thread merge through a pointer
  that points nowhere (`Framing.DecoderStaysValid`). An empty table reported before
  the tracker has any record ends it too (`Sessions.SessionDelivers`,
  `Sessions.EmptyReportSinks`). No peer of the protocol sends one
  (`Connections.ConnectionRefinesProtocol`).
- Taking out the only provider of a record leaves the record on offer without a
  source (`Convergence.OrphanedIffOnlySource`).
- A deletion within the second of the last change is lost
  (`Convergence.DeletionNoticedIffLater`), and a tombstone of a non-empty file is
  fetched by peers that never had the file (`Convergence.TombstoneFetchedIffUnknown`).

## Model

| member | source | states |
|---|---|---|
| Providers.AddIsGood | tracker/tracker.c:167-182 | adding a reporter keeps a provider array packed and duplicate-free, and lists just that address more, if there is room |
| Providers.AddAppends | tracker/tracker.c:171-181 | the new address becomes the last, the others keep their places; nothing changes exactly if it is listed, empty, or the array full |
| Providers.RemoveIsExact | tracker/tracker.c:280-295 | removal by moving the last address into the gap leaves exactly the other addresses, packed and duplicate-free, although the moved one is not looked at again |
| Providers.RemoveMovesLast | tracker/tracker.c:284-292 | only the last address moves, into the place of the one removed |
| Providers.RemoveIsCompleteIff | tracker/tracker.c:282-293 | on any packed array, where the address may be listed m times, all of them go exactly if none of the last m - 1 slots in use holds it |
| Providers.DuplicateSurvives | tracker/tracker.c:282-293 | the smallest array on which one survives |
| Merge.MergeKeepsNames | tracker/tracker.c:149-232 | merging keeps names unique and every record at its place |
| Merge.MergeTakesNewest | tracker/tracker.c:163-195 | after a merge each name has the lexicographic maximum of (timestamp, size) over the old record and all reported ones, and is present exactly if it was in either |
| Merge.MergeIgnoresOrder | tracker/tracker.c:149-232 | two batches that report the same versions give the same version map, whatever their order and repetitions |
| Merge.BatchOrderIsIrrelevant | tracker/tracker.c:66-69 | the same holds for any order and repetition of whole batches |
| Merge.MergeOrder | tracker/tracker.c:199-231 | known records keep their order, new names follow in the order first reported |
| Merge.MergeAt | tracker/tracker.c:163-231 | after a report, which names each file once, a record is the old one refreshed by, or made from, the report's record of that name |
| Merge.ReportedRecordIs | tracker/tracker.c:163-231 | a report's record replaces one that is missing or older, with its reporter as only provider; adds its reporter to one of the same version, as the last provider, and nothing else; and leaves a newer one alone |
| Merge.MergeNeverMixes | tracker/tracker.c:185-195 | version, type and status of a merged record come from one and the same record, the old one or a reported one |
| Merge.RemovePeerIsExact | tracker/tracker.c:278-296 | delete_peer takes an address out of every record, adds or loses no other, and changes no version |
| History.ProvidersAreSound | tracker/tracker.c:167-194 | after every run of reports and departures each provider list is packed, duplicate-free, and lists only peers that reported exactly the record's version and have not been removed since |
| History.ProvidersAreComplete | tracker/tracker.c:177-180 | in runs where at most five such peers ever claim a record's version, the list is exactly their set |
| History.BatchIsReports | tracker/tracker.c:149-232 | merging a batch is the run that reports its entries one by one |
| Peers.PassAt | peer/peer.c:530-625 | a pass over a whole broadcast treats every name by itself, by its own record and the broadcast's |
| Peers.PassStarts | peer/peer.c:543-573 | the downloads a pass starts are decided by the table it began with |
| Peers.StartedExactly | peer/peer.c:546-573 | a download is started for exactly the records that call for one, with their version and providers |
| Peers.StartedOncePerName | peer/peer.c:543-623 | a pass starts at most one download per name |
| Peers.PassRaises | peer/peer.c:543-625 | a pass never lowers a version, and brings every non-deleted, non-empty record that is not being downloaded to the newer of the two versions |
| Effects.CompareTouchesOne | peer/peer.c:530-627 | comparing a record touches no other record, moves none, and reports nothing |
| Effects.TombstoneMarksIff | peer/peer.c:543-592 | a tombstone marks a known record deleted exactly if the record's timestamp is not later, and changes nothing else; a record with a later timestamp keeps everything |
| Effects.NewsIsFetched | peer/peer.c:543-575 | any other record has an effect on a known one exactly if it is newer and not empty and the file is not being fetched; then the record takes its version and the download is started, with all its providers in order |
| Effects.UnknownIsFetchedIff | peer/peer.c:597-623 | an unknown name is taken up exactly if the record is not empty, as a file being fetched with the own address |
| Effects.PassKeepsLater | peer/peer.c:687-701 | through a whole pass a record later than the broadcast's keeps everything |
| Effects.PassMarksIff | peer/peer.c:687-701 | a pass marks a record deleted exactly if the broadcast has a tombstone of it that is not earlier |
| Effects.PassRenewsIff | peer/peer.c:687-701 | a pass gives a known record the broadcast's version if that is news, and otherwise keeps its version, and its type but for a deletion |
| Effects.PassTakesUpIff | peer/peer.c:687-701 | a pass takes up an unknown name exactly if the broadcast has it, not empty |
| Effects.PassOrder | peer/peer.c:687-701 | known records keep their order through a pass, new ones follow in the broadcast's order |
| Effects.PassStartsInOrder | peer/peer.c:687-701 | the downloads of a pass are started in the broadcast's order |
| Effects.CreationReportedIff | peer/monitor.c:155-211 | a creation event is reported, once, exactly for an unknown name and a record that is deleted or just downloaded; otherwise nothing happens |
| Effects.ModificationReportedIff | peer/monitor.c:233-263 | a modification event is reported exactly for a known record that is not being fetched; otherwise nothing happens |
| Effects.DeletionReportedIff | peer/monitor.c:213-231 | a deletion event is reported exactly for a known record |
| Effects.EventTouchesOne | peer/monitor.c:155-263 | an event touches the record of its own file at most, and no download |
| Effects.CreatedRecordIs | peer/monitor.c:164-208 | the record after a creation: a new file with the own address alone, a deleted one anew at its present version, a downloaded one at the version it was fetched for |
| Effects.ModifiedRecordIs | peer/monitor.c:244-256 | the record after a modification: a downloaded file keeps the version it was fetched for, any other has its present one |
| Effects.DeletedRecordIs | peer/monitor.c:219-220 | a deleted record has the current time and keeps its size, providers and status |
| Effects.FinishedIs | peer/peer.c:24-36 | whatever has become of the record, a finished download gives it the type and the size it was started for, keeps its timestamp, and touches nothing else |
| Peers.RepeatStartsNothing | peer/peer.c:543-625 | a second pass over the same table starts nothing, whichever downloads of the first have finished |
| Peers.JobNamesAllSources | peer/peer.c:557-565 | a download's sources are all the addresses of a packed provider array, in their order |
| Jobs.StepKeepsMatchedIff | peer/peer.c:543-579 | a monitor event, compared record or finished download keeps one download per record being fetched, with its version, exactly if it does not mark such a record deleted |
| Jobs.RunStaysMatchedIff | peer/monitor.c:213-225 | the correspondence holds all along a run exactly if no step of it marks a record deleted while its file is being fetched |
| Jobs.DeletionDoublesDownload | peer/peer.c:546-579 | a file announced, deleted while it is fetched, and announced again is fetched twice at a time, and the first download to finish writes its outdated size into the record |
| Peers.LocalKeepsOwn | peer/monitor.c:155-263 | one monitor event, compared record or finished download keeps names unique, records in place and the own address first, and reports the whole table or nothing |
| Peers.TableStaysWellFormed | peer/monitor.c:155-263 | the same under every interleaving of events, deletions included, and for every report sent |
| Jobs.FinishShape | peer/peer.c:24-36 | while downloads and records correspond, a finishing download changes the type of its own record and nothing else |
| Invariant.MergeKeepsTracker | tracker/tracker.c:163-231 | merging a report in a reachable state never stores a transient type, and keeps provider lists good |
| Invariant.MergeKeepsClaims | tracker/tracker.c:167-194 | if a peer listed for a version always had a record of it or a later one before a merge, it does after |
| Invariant.LookKeeps | peer/peer.c:687-714 | working through a queued broadcast, stale or not, keeps everything known about a peer, and after the newest one nothing fetchable is left behind |
| Invariant.MergeStepKeeps | tracker/tracker.c:66-78 | merge and broadcast keep the invariant of the whole system |
| Invariant.LeaveKeeps | tracker/tracker.c:273-317 | so does the removal of a peer |
| Invariant.StepKeepsInv | tracker/tracker.c:18-89 | every step of the system keeps it |
| Invariant.RunsKeepInv | tracker/tracker.c:18-89 | it holds at the end of every run |
| Convergence.QuiescenceMeansAgreement | peer/peer.c:530-627 | in every reachable state with empty channels and no transient record, each peer has exactly the tracker's version of every non-empty record and nothing newer than the tracker's |
| Convergence.DownloadsAreServable | peer/peer.c:557-573 | in every reachable state no download names its own peer as a source, there is at most one per file, each has a non-empty file, at most five distinct sources, and at least one unless a peer has been removed |
| Convergence.TrackerNeverTransient | tracker/tracker.c:185-189 | the tracker never stores or sends FILE_DOWNLOADING or FILE_DOWNLOAD |
| Convergence.ListedMeansKnown | tracker/tracker.c:167-194 | a peer that the tracker, or a broadcast still queued for that peer, lists for a version has a record of it or a later one, though it may still be fetching the file; the tracker lists only connected peers |
| Sources.SourcesKnowTheFile | tracker/tracker.c:167-194 | without removals, everyone listed by the tracker or by a broadcast on the way to any peer, or named by a running download of any peer, is connected and has a record of that version or a later one |
| Sources.ListedWhileFetchingIff | tracker/tracker.c:167-181 | merging a report lists its sender for a file that it reports as being fetched, or as just fetched, exactly if the record has the tracker's version, the sender is not listed and a slot is free |
| Sources.SourceMayBeFetching | tracker/tracker.c:163-182 | of any three peers one may run a download of any file that names another as a source while that one is still fetching the file |
| Convergence.EditIsReported | peer/monitor.c:176-210 | the report of an edit has the file at its new version, with no transient type, and all other files as they were |
| Convergence.EditBecomesCurrent | tracker/tracker.c:185-195 | an edit newer than the tracker's version becomes it, with the editor as only source, from which every peer that is behind and not fetching the file fetches it |
| Convergence.SelfDownloadIffLowered | peer/monitor.c:251-255 | an edit of any settled record leads a listed peer to download from itself exactly if it lowers the version of a non-empty file |
| Convergence.OrphanedIffOnlySource | tracker/tracker.c:280-295 | a removal leaves a record without sources exactly if no other peer was listed |
| Convergence.TombstoneFetchedIffUnknown | peer/peer.c:597-623 | a tombstone starts a download exactly if the name is unknown and its size not zero |
| Convergence.DeletionNoticedIffLater | peer/monitor.c:219-224 | the tracker learns of a deletion exactly if the clock has passed the timestamp of the version |
| Convergence.TombstoneBuries | peer/peer.c:577-592 | a tombstone no older than the record marks it deleted, at its old version, and starts nothing |
| Settling.SettlingDescends | peer/peer.c:543-574 | every step other than an edit, arrival or departure descends in a well-founded order on the versions still ahead, pending downloads, reports and broadcasts |
| Settling.NotQuietMeansProgress | peer/monitor.c:244-250 | while anything is queued, being downloaded or unnoticed, some such step is possible, the end of a running download among them |
| Settling.NoLivelock | peer/monitor.c:240-250 | there is no endless run of such steps from a reachable state |
| Settling.EventuallyAllAgree | peer/peer.c:687-714 | however they are scheduled, the system becomes quiet after finitely many, with all peers in agreement |
| Framing.PeerSendPkt | common/pkt.c:61-111 | the packets of a report: the number of nodes, then each node with its link; for other types one packet |
| Framing.DecoderStaysValid | tracker/tracker.c:39-78 | for every packet stream the thread is idle or has as many nodes as it counted, fewer than announced; it merges through a pointer that points nowhere exactly on a table packet that announces nothing while it is idle, or that completes a table with a node that has a link |
| Framing.StrayAnnouncementIsIgnored | tracker/tracker.c:41-49 | a further announcement while a table is being received makes no difference |
| Framing.NegativeSizeBlocks | tracker/tracker.c:41-67 | after an announced size below -1 nothing is ever merged on the connection |
| Framing.OtherPacketsAreHeard | common/pkt.c:67-85 | what a peer sends to register or as a heartbeat is one packet that greets or beats, whatever the thread is doing |
| Framing.FramingRoundTrip | tracker/tracker.c:28-83 | whatever other packets are interleaved, the thread ends idle; it merges through a pointer that points nowhere exactly if one of the lists sent does not end with a NULL link, and otherwise brings exactly their tables to be merged, in order |
| Sessions.SessionDelivers | tracker/tracker.c:18-140 | a connection that carries given lists is served to its end exactly if all of them end with a NULL link and it is not the case that the first is empty and the tracker has no record yet; then all are merged, every listed peer is sent the result of each, in order, and the one at the other end also the table as it stands at each of its REGISTERs |
| Sessions.EmptyReportSinks | tracker/tracker.c:124-128 | the smallest connection that is not: an empty table reported to a tracker without records, which display_filetable does not survive |
| Sessions.ReporterIsAnswered | tracker/tracker.c:32-37 | a peer that opens with its one REGISTER is sent the table it finds and then the result of each of its reports, up to the end on the same condition |
| Stream.TrackerSendPkt | common/pkt.c:155-189 | the bytes the tracker writes for one table |
| Stream.Receiver | common/pkt.c:12-25 | a record is exactly the next bytes of the stream, or nothing if it ends first |
| Stream.PeerRecvPkt | common/pkt.c:115-151 | reading a table: the announced number of records, the links of the list rebuilt except the last |
| Stream.TableArrives | common/pkt.c:115-151 | a table whose nodes fit is read back as sent, only its own bytes are taken, and its list ends properly exactly if it did at the tracker |
| Stream.TableReadIff | common/pkt.c:115-151 | on any stream, reading a table succeeds exactly if its header and the announced number of whole records are there, and takes just those |
| Stream.StreamRoundTrip | common/pkt.c:115-189 | so are any number of tables back to back on one stream, for every faithful layout of records |
| Layouts.CLayoutIsFaithful | common/constant.h:65-82 | the structs as they lie in memory are such a layout: every record that fits is read back from its bytes |
| Stream.StructsRoundTrip | common/pkt.h:34-39 | hence the round trip for the structs, without any assumption about the layout |
| Members.SweepIsExact | tracker/tracker.c:99-102 | a sweep keeps the head and exactly those others heard in time, also when neighbours expire together |
| Members.AddPeerIff | tracker/tracker.c:241-269 | a connection leaves the list alone exactly if its socket is that of a member before the last; otherwise it adds itself at the end, with its address and the time |
| Members.HeardPeerIs | tracker/tracker.c:321-331 | a heartbeat stamps the first member on the socket and changes nothing else |
| Members.DeletePeerIff | tracker/tracker.c:299-314 | a departure unlinks nobody exactly if the list has one member, its head is on the socket, or nobody is; otherwise the first on the socket |
| Members.ExpiredIff | tracker/tracker.c:101 | a member has expired exactly if it is silent for more than 240 s, or its stamp is from the future, up to the wrap of the unsigned difference |
| Members.AddressesAreTrue | tracker/tracker.c:262-264 | in every timed run a member has the address that the last connection on its socket came from |
| Members.StampsAreTrue | tracker/tracker.c:321-331 | in every timed run a member's stamp is the time of its last sign of life |
| Members.SweepUnlinksIffSilent | tracker/tracker.c:99-102 | a sweep unlinks a member other than the head exactly if it has been silent for more than 240 s |
| Members.SilentPeersAreDropped | tracker/tracker.c:93-106 | with sweeps every 60 s such a member is off the list 300 s after its last sign of life, whatever else happens |
| Heartbeats.ServedListIs | tracker/tracker.c:28-83 | serving a connection leaves the list of the run in which each of its KEEP_ALIVE packets is a sign of life when it is received, and no other packet is anything |
| Heartbeats.ServingExtendsRun | tracker/tracker.c:81-82 | so serving extends a timed run, and the theorems on timed runs hold of it |
| Heartbeats.ServedStampsAre | tracker/tracker.c:81-82 | after serving, the member on the connection is stamped with its last KEEP_ALIVE, or as before, and every other member is as it was |
| Heartbeats.KeepAlivesKeep | tracker/tracker.c:97-105 | a peer other than the head that sends keep-alives is unlinked by a sweep exactly if the last is more than 240 s old |
| Heartbeats.SweepTakesOutSilent | tracker/tracker.c:97-105 | a sweep takes out of the records exactly the addresses that silent connections came from |
| FileTables.Node.AddProvider | tracker/tracker.c:168-182 | the scan and append on the provider array |
| FileTables.Node.TakeVersion | tracker/tracker.c:185-195 | a newer version replaces the record and its providers |
| FileTables.Node.RemoveProvider | tracker/tracker.c:282-294 | the removal loops on the provider array |
| FileTables.FileTable.Search | tracker/tracker.c:154-202 | the search ends at the first node of the name, or else at the last node |
| FileTables.FileTable.Append | tracker/tracker.c:209-230 | a node is linked behind the last one and the list stays a list |
| FileTables.FileTable.RemoveFromAll | tracker/tracker.c:280-295 | the removal loop over all records |
| TrackerProcess.Tracker.MergeNode | tracker/tracker.c:150-231 | one reported node refreshes its record or is appended |
| TrackerProcess.Tracker.UpdateFiletable | tracker/tracker.c:143-237 | update_filetable in place is the merge of the batch, and it comes back exactly if there is a table to display then |
| TrackerProcess.Tracker.BroadcastFiletable | tracker/tracker.c:111-122 | every member is sent the table, in list order |
| TrackerProcess.Tracker.AddPeer | tracker/tracker.c:241-269 | a peer is appended unless its socket is on the list before the last member |
| TrackerProcess.Tracker.DeletePeer | tracker/tracker.c:273-317 | the address leaves every record; the first later member with the socket is unlinked, the head never |
| TrackerProcess.Tracker.HeardPeer | tracker/tracker.c:321-331 | the first member with the socket is stamped |
| TrackerProcess.Tracker.Heartbeat | tracker/tracker.c:97-105 | a sweep of the list and of the table |
| TrackerProcess.SweptTableIs | tracker/tracker.c:99-102 | a sweep takes out of every record just the addresses of expired members |
| TrackerProcess.Tracker.Handshake | tracker/tracker.c:18-89 | a connection is served packet by packet as the decoder and the merge prescribe, up to its end or to the first packet that brings the tracker down, and at its end the peer is forgotten |
| Connections.ConnectionRefinesProtocol | tracker/tracker.c:18-122 | serving a connection in any reachable state of the protocol, with some of the peer's reports and anything interleaved, reaches its end and leads to the table of a reachable state, with on every peer's channel just what has been written to its socket |
| Connections.ReportIsMergeStep | tracker/tracker.c:39-78 | serving the packets of a peer's oldest report has the table and the transmissions of its merge step |
| Connections.ConnectingIsJoin | tracker/tracker.c:380-387 | connecting on a socket of one's own and registering is the protocol's join: on both lists at the end, sent the table, and nobody else notices |
| Connections.DepartingIsLeave | tracker/tracker.c:273-317 | the end of a connection other than the head's is the protocol's leave |
| Connections.BroadcastIsRead | common/pkt.c:115-151 | if the stream to a peer holds the tables of its channel, the next table read is the next of the channel, and the rest stays |
| PeerProcess.Process.SetNodeType | peer/peer.c:24-36 | the first record of the name gets the type and size |
| PeerProcess.Process.CompareNode | peer/peer.c:530-627 | comparing one record in place |
| PeerProcess.Process.MakeJob | peer/peer.c:549-567 | a download's sources are the addresses up to the first unset slot |
| PeerProcess.Process.ReceiveBroadcast | peer/peer.c:687-701 | a broadcast is taken off the connection and compared record by record |
| PeerProcess.Process.FileAdded | peer/monitor.c:155-211 | the file table and the reports after a creation event |
| PeerProcess.Process.FileModified | peer/monitor.c:233-263 | and after a modification event |
| PeerProcess.Process.FileDeleted | peer/monitor.c:213-231 | and after a deletion event |
| Packets.PacketsFit | peer/p2p.c:94-107 | both ends compute the same packets, and these tile the piece |
| Packets.UploadSend | peer/p2p.c:79-148 | each message is the compressed string in its packet, padded to the packet's length; nothing if the file cannot be opened or a compressed packet does not fit its data field |
| Packets.PieceDownload | peer/peer.c:127-192 | each message's string lands at its packet's place, zeros elsewhere; it ends without a piece exactly if a message is missing, does not fit the library's buffer, or overruns the piece |
| Packets.TransferTruncates | peer/peer.c:151-190 | a piece is received with every packet cut at its first zero byte |
| Packets.ArrivesIffClean | peer/p2p.c:113-119 | hence unharmed exactly if no packet has a non-zero byte after a zero byte |
| Packets.NothingAfterZeroIsSent | peer/p2p.c:112-117 | nothing that follows a zero byte in its packet leaves the source, not even compressed |
| Download.SplitTiles | peer/peer.c:250-267 | the pieces tile the file for every size and provider count, except no provider and a non-empty file, and two providers and one byte, and are at most as many as the providers |
| Download.SplitShape | peer/peer.c:250-267 | one provider serves all; two serve halves, the second at most a byte less; of more, all but the last serve pieces of one size, and the last serves the rest, shorter than their number, exactly if there is one |
| Download.ByteInOnePiece | peer/peer.c:274-297 | every byte is in exactly one piece |
| Download.PtpDownload | peer/peer.c:250-344 | the loops over pieces and temporary files compute the joined download; every thread that is joined was created exactly if no piece is skipped |
| Download.DownloadAsksOnly | peer/peer.c:274-304 | provider i is asked for piece i alone, and only if there is one whose temporary file is too short; what the others have makes no difference |
| Download.FetchPieces | peer/peer.c:274-304 | which pieces are fetched, what their temporary files hold then, and that the fetching stops only at a needed piece that cannot be had |
| Download.DownloadIsFileIff | peer/peer.c:250-344 | whatever the providers have, the download is the file exactly if the split tiles and every temporary file was complete and right, or absent or empty with a non-empty piece that its provider delivers right; without providers it is the empty file |
| Download.FreshDownloadIsFileIff | peer/peer.c:250-344 | starting from nothing, exactly if there is a byte for every piece and every provider delivers its piece of the file |
| Download.HolderDeliversIff | peer/p2p.c:113-119 | a provider that holds the file delivers a piece of it right exactly if the piece is clean and its compressed packets fit their data field |
| Download.UnopenedIsFatal | peer/p2p.c:80-84 | a provider that cannot open the file, asked for a piece, ends the download |
| Download.ZerosPastTheEnd | peer/p2p.c:89-91 | where a provider's file has ended it delivers zeros, as many as asked for |
| Download.EqualProvidersServeIff | peer/peer.c:250-344 | with providers that all hold the file, a download from nothing is the file exactly if there is a byte for every piece and all pieces are clean and fit |
| Service.EveryDownloadIsFileIff | peer/peer.c:205-349 | every download of every reachable state, over what each of its sources has then: it is the file exactly if there is a source, a byte for every piece, and each source asked is settled at the version and its piece clean and fit, or is not and happens to deliver the piece |
| Service.EverySourceIsConnected | peer/peer.c:557-573 | without removals there is a source, and each is another, connected peer that is settled at the version, is still fetching or noticing the file, or has moved on to a later version |
| Service.ReachableDownloadFails | peer/p2p.c:80-84 | a reachable download of any file of two bytes or more that ends in a crash although all settled records are true, because a source has not got the file yet |
| Replicas.HistoriesAreTrue | peer/peer.c:312-346 | with disks that edits and finished downloads write: in every history whose finished downloads come out as their files, every record that is not being fetched is true of its peer's disk |
| Replicas.FinishIsRightIff | peer/peer.c:205-349 | in such a history the next download to finish comes out as its file exactly if it has a source, a byte for every piece, and every source asked serves its piece |
| Replicas.QuiescenceMeansSameBytes | peer/peer.c:530-627 | when everything is quiet at its end, all peers have the same bytes of every non-empty file, those of the tracker's version |
| Replicas.EventuallySameBytes | peer/peer.c:687-714 | however the remaining steps are scheduled, if no download ends its process or comes out wrong, the same bytes are everywhere after finitely many |

## Left out

- Sockets, accept, connect, thread creation and joining, signals; short reads of a message.
- zlib: a pair of inverse functions.
- inotify decoding and directory walking in `notify`; only the file-table effects of each event are modelled.
- The shell step that recounts temporary files before a download (peer/peer.c:215-248): the provider count stays.
- The directory-tree list and common/list.c; printing, but for what display_filetable does without a table; configuration; string-buffer sizes.
- A send that fails in the middle of a broadcast, which ends the loop (tracker/tracker.c:115-119).
- The tracker's peer list is a sequence, not linked nodes: that delete_peer frees a head it does not unlink, and the heartbeat loop reads a node it has freed, is not captured.
- System theorems with deletions: a deletion does not advance the timestamp on the peers that learn of it (peer/peer.c:418-421), and two downloads of one file may then run at a time, so versions need not agree.
- Contents that change while a download runs.
- Download.PtpDownload: what joining a thread id that was never set does (peer/peer.c:307-309) is undefined in C; here it returns, and `joinable` says when it does not happen.
- Packets.UploadSend: what a source does after it has overrun a buffer is undefined in C; here it sends nothing.
- PeerProcess.Process.FinishDownload: the two steps of ptp_download that touch the file table, without the file itself, which is the matter of Download.
