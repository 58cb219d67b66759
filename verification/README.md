# TDX tools: a verified model of firmware variables, event logs, quote framing and VM descriptions

The project models four parts of the repository and proves what they are for.

**Firmware variables** (`Struct`, `Guid`, `Variables`, `StoreImage`, `VarList`, `Signatures`, `Enroll`,
`Misread`, `Runs`, `SecureBoot`, `Effects`, `ImageLayout`, `Blank`, `VariableStore`). The key-enrollment
tool reads a firmware image, finds the variable store, lists its live variables, edits the list and writes
the store region back; the next run reads what the last one wrote. Images are byte strings. `StoreImage`
gives reading and writing as functions over whole images, with Python's clipped slices, 4-byte padding and
0xFF fill. `VarList` gives the list edits and, next to them, an ordered map from (name, GUID) to contents.
`Enroll` is one run of the tool, including the runs that raise, fail or never end. `Misread` says what
becomes of records that are not read back as they were written, and `Runs` proves when a sequence of runs is
the same sequence on the ordered map. `SecureBoot` specialises that to certificates and to the five-variable
secure-boot run, and `Effects` says what a run does in terms of its arguments alone. `ImageLayout` fixes the
two headers byte for byte. `VariableStore` holds the tool's objects, updated in place, each method proved
against those functions. `Blank` gives, for every layout whose numbers fit their header fields, an image
that meets what the run theorems require, and carries the default secure-boot run through on it.

**Event logs** (`EventLog`, `LogWalk`, `Replay`, `EventLogActor`). The TD event log (TCG_PCR_EVENT2,
section 10.2.2, and the Spec ID event, section 10.4.5.1, of the TCG PC Client Platform Firmware Profile
1.05) is parsed with a digest-size table read from its first record, grouped by register, and hash-chained.
The hash is any function with 48-byte results; nothing else is assumed of it.

**Quote framing** (`Quote`). Requests and responses in the 16384-byte GetQuote buffer (section 3.3 of the
Intel TDX GHCI specification).

**Virtual machine descriptions** (`Cmdline`, `XmlTree`, `VirtXml`, `CpuPins`). Kernel command-line edits as
token edits, cached XML fields against the element tree, and the dealing-out and pinning of host CPUs.

`Bytes` holds fixed-width numerals, slices and padding. `None` in an `Option` stands for "an exception is
raised". Every lemma is proved with automatic induction switched off.

## What the code does differently from what one would expect

- The volume search never moves on: it ends only if the volume at offset 0 is a valid NVRAM volume
  (`StoreImage.SearchSettles`); a run over any other non-empty image is the outcome `Hangs`
  (`Enroll.RunHangs`).
- A run reports success although nothing was edited, for instance when deleting an absent variable
  (`Runs.RunRefines` includes the reported value).
- A new variable whose name is not ASCII is written and reported as a success, and then the next run
  cannot open the image: exactly the ASCII names survive (`Runs.AddedNameReadable`, and on a blank image
  `Blank.AccentedNameLocksOut`).
- Appending a dbx file shorter than the authentication header it announces writes a record that declares
  less than it holds, unless so much is missing that the run is refused; the next run reads the stored dbx
  without its last bytes (`Runs.DbxAppendWritten`, and on a blank image `Blank.ShortDbxSpoils`). An ADD or
  UPDATE of such a file is refused when it would create the record. These two and the names are the only
  ways a run that fits departs from the ordered map (`Runs.RunRefines`, `Runs.TracksIffSafe`).
- The quote request cuts 24 bytes off the message; it arrives exactly when those bytes are zero and the
  message fits (`Quote.RequestFaithful`).
- A quote response is refused for its header only if all four checked fields are wrong, so responses that
  carry an error code are accepted, and a selected id is taken for the start of the quote (`Quote.FrameRead`).
- Processing a log without a Spec ID record twice lists its events twice (`EventLogActor.ProcessTwice`, with
  the log of `EventLogActor.BareLogListedTwice`).
- An exception while reading a log leaves what was read so far in place. Once a Spec ID object exists, even
  one that could not be parsed, every later call takes the half-read log for the whole
  (`EventLogActor.ProcessAgain`, `EventLogActor.CallsSettle`, `EventLogActor.CutSpecReplaysZero`).
- A volume header length of 28 already keeps the headers out of the rewritten region, because the region
  starts 28 bytes further on (`StoreImage.Placed`).

## Model

| member | source | states |
|---|---|---|
| Struct.UnpackOfPack | tdx-tools/utils/ovmfkeyenroll/ovmfkeyenroll/var_enroll.py:271-307 | for any field list whose values fit their widths, unpacking what was packed returns the values |
| Struct.PackOfUnpack | tdx-tools/utils/ovmfkeyenroll/ovmfkeyenroll/var_enroll.py:148-179 | packing what was unpacked returns the bytes, so a time stamp taken from a file is stored as it stands |
| Guid.TextRoundTrip | tdx-tools/utils/ovmfkeyenroll/ovmfkeyenroll/var_enroll.py:31-50 | converting accepted GUID text to binary and back gives the text in lower case |
| Guid.PrintedIsGuid | tdx-tools/utils/ovmfkeyenroll/ovmfkeyenroll/var_enroll.py:23-37 | the text of 16 bytes is accepted if and only if their version and variant nibbles are allowed |
| Guid.BinaryRoundTrip | tdx-tools/utils/ovmfkeyenroll/ovmfkeyenroll/var_enroll.py:31-50 | for such bytes, converting to text and back gives the bytes |
| Guid.SameGuidAnyCase | tdx-tools/utils/ovmfkeyenroll/ovmfkeyenroll/var_enroll.py:434-440 | two accepted texts are equal up to letter case if and only if they name the same binary GUID |
| Guid.GuidLayout | tdx-tools/utils/ovmfkeyenroll/ovmfkeyenroll/var_enroll.py:39-50 | which two digits of an accepted text make which of the 16 bytes: three groups back to front, two as written |
| Variables.BlobRoundTrip | tdx-tools/utils/ovmfkeyenroll/ovmfkeyenroll/var_enroll.py:299-317 | a printed record splits at its stored sizes into the same header, name and data |
| Variables.RecordLayout | tdx-tools/utils/ovmfkeyenroll/ovmfkeyenroll/var_enroll.py:299-307 | a printed record byte for byte: start id, state, reserved, attributes, count, time stamp, key index, sizes, GUID, name, data, each at its offset |
| Variables.HeaderLayout | tdx-tools/utils/ovmfkeyenroll/ovmfkeyenroll/var_enroll.py:269-282 | the header fields read from any 60 bytes are those at the same offsets |
| Variables.Str2BlobInjective | tdx-tools/utils/ovmfkeyenroll/ovmfkeyenroll/var_enroll.py:52-62 | different names have different stored forms |
| Variables.Str2BlobAt | tdx-tools/utils/ovmfkeyenroll/ovmfkeyenroll/var_enroll.py:52-62 | each byte of a name is stored as a 16-bit number, followed by a 16-bit zero |
| Variables.NameReadableIffAscii | tdx-tools/utils/ovmfkeyenroll/ovmfkeyenroll/var_enroll.py:52-62 | the stored form of a name decodes when read back if and only if the name is ASCII |
| Variables.EncodedDecodes | tdx-tools/utils/ovmfkeyenroll/ovmfkeyenroll/var_enroll.py:309-315 | the encoding of any sequence of Unicode scalar values decodes |
| Variables.DecodesEncoded | tdx-tools/utils/ovmfkeyenroll/ovmfkeyenroll/var_enroll.py:309-315 | whatever decodes is such an encoding |
| StoreImage.SearchSettles | tdx-tools/utils/ovmfkeyenroll/ovmfkeyenroll/var_enroll.py:618-627 | after any number of rounds the search is where the first round left it: ended at offset 0, or never |
| Enroll.RunHangs | tdx-tools/utils/ovmfkeyenroll/ovmfkeyenroll/var_enroll.py:618-627 | a run hangs if and only if its search is still looking after every number of rounds, that is, if and only if the image is not empty and has no valid NVRAM volume at its start |
| ImageLayout.VolumeLayout | tdx-tools/utils/ovmfkeyenroll/ovmfkeyenroll/var_enroll.py:97-118 | a volume is accepted if and only if GUID and magic stand at bytes 16 and 40 of a full header; size and header length are read at bytes 32 and 48 |
| ImageLayout.StoreHeaderLayout | tdx-tools/utils/ovmfkeyenroll/ovmfkeyenroll/var_enroll.py:353-376 | a store header is unreadable, unsupported or supported by its length and the GUID at its front; its size is read at byte 16 |
| StoreImage.LaidParses | tdx-tools/utils/ovmfkeyenroll/ovmfkeyenroll/var_enroll.py:483-511 | over records in any state, laid one behind the other, the walk lists exactly those in state 0x3f, in order, and covers all; it raises if and only if a listed name does not decode |
| StoreImage.LaidExists | tdx-tools/utils/ovmfkeyenroll/ovmfkeyenroll/var_enroll.py:483-511 | every store whose records lie inside it is such a layout |
| StoreImage.CutShortRaises | tdx-tools/utils/ovmfkeyenroll/ovmfkeyenroll/var_enroll.py:489-491 | the walk raises when fewer than two bytes are left before the end of the store |
| StoreImage.ParseSerialized | tdx-tools/utils/ovmfkeyenroll/ovmfkeyenroll/var_enroll.py:456-511 | walking joined padded records of any states yields exactly the live ones, stopping at the end of the store or at the fill, or raises if one of their names does not decode |
| StoreImage.ParsedFits | tdx-tools/utils/ovmfkeyenroll/ovmfkeyenroll/var_enroll.py:483-511 | if every record lies inside the store, the listed records have matching sizes and need no more room than the walk covered |
| StoreImage.SyncEffect | tdx-tools/utils/ovmfkeyenroll/ovmfkeyenroll/var_enroll.py:442-470 | for a region inside the image: the exact length, the bytes kept before and behind, the records, and the fill, also when the records overrun the region |
| StoreImage.ImageRoundTrip | tdx-tools/utils/ovmfkeyenroll/ovmfkeyenroll/var_enroll.py:442-511 | writing records that fit and searching the result finds both headers and exactly those records in order if every name decodes, and fails otherwise |
| StoreImage.WellFormedFits | tdx-tools/utils/ovmfkeyenroll/ovmfkeyenroll/var_enroll.py:483-511 | padded live size is at most `vars_size`, which is at most the region, so compaction alone cannot overflow |
| StoreImage.RewriteKeepsLive | tdx-tools/utils/ovmfkeyenroll/ovmfkeyenroll/var_enroll.py:442-511 | of the records laid out in an image, deleted ones among them, exactly those in state 0x3f are found and written back, in order |
| StoreImage.WellFormedLaid | tdx-tools/utils/ovmfkeyenroll/ovmfkeyenroll/var_enroll.py:483-511 | every well-formed image holds such a layout |
| StoreImage.RewriteNormalises | tdx-tools/utils/ovmfkeyenroll/ovmfkeyenroll/var_enroll.py:442-511 | write after parse keeps the listed records in order, and doing it again changes no byte |
| VarList.AddKeepsUnique | tdx-tools/utils/ovmfkeyenroll/ovmfkeyenroll/var_enroll.py:401-440 | adding keeps keys unique, the added key is found with the new data, all other records stay in place |
| VarList.DelKeepsUnique | tdx-tools/utils/ovmfkeyenroll/ovmfkeyenroll/var_enroll.py:379-399 | deleting keeps keys unique, the key is gone, all other records stay in order |
| VarList.AbsInjective | tdx-tools/utils/ovmfkeyenroll/ovmfkeyenroll/var_enroll.py:332-376 | two lists of live records with unique keys that stand for the same ordered map are equal |
| VarList.AddRefines | tdx-tools/utils/ovmfkeyenroll/ovmfkeyenroll/var_enroll.py:401-432 | `add_variable` on the list is put or merge on the ordered map, raising in the same cases |
| VarList.DelRefines | tdx-tools/utils/ovmfkeyenroll/ovmfkeyenroll/var_enroll.py:379-399 | `del_variable` on the list is removal on the ordered map |
| Runs.RunRefines | tdx-tools/utils/ovmfkeyenroll/ovmfkeyenroll/var_enroll.py:843-944 | one run over a well-formed image reports what the map step reports and changes only region bytes; the result holds the map after the step if and only if an accepted edit has an ASCII name and a dbx file with its whole header |
| Runs.RunsRefineOrderedMap | tdx-tools/utils/ovmfkeyenroll/ovmfkeyenroll/var_enroll.py:782-944 | any sequence of add, append, delete and update runs that fits throughout and is safe throughout leaves an image whose parsed store is the ordered map after the same sequence |
| Runs.TracksIffSafe | tdx-tools/utils/ovmfkeyenroll/ovmfkeyenroll/var_enroll.py:782-944 | the images of a sequence of runs follow the ordered map all the way if and only if every run on the way is safe in the map it finds |
| Misread.OverlongWritten | tdx-tools/utils/ovmfkeyenroll/ovmfkeyenroll/var_enroll.py:483-511 | a list with one record declaring less than it holds is written, and reading it back shows the records before it unchanged and that one cut to the size it declares |
| Runs.AddedNameReadable | tdx-tools/utils/ovmfkeyenroll/ovmfkeyenroll/var_enroll.py:309-315 | after adding a new ordinary variable, or appending to an absent one, success is reported, and the store can be opened again if and only if the name is ASCII |
| Runs.DbxSizeAgrees | tdx-tools/utils/ovmfkeyenroll/ovmfkeyenroll/var_enroll.py:732-740 | the declared size of a dbx payload is its length if and only if the file holds its authentication header |
| Runs.DbxAppendWritten | tdx-tools/utils/ovmfkeyenroll/ovmfkeyenroll/var_enroll.py:284-297 | appending a dbx file to a stored dbx: success if and only if the declared size fits its field, and nothing is written otherwise; the image holds the appended map if and only if the file has its whole header or is refused; in between, the next reader finds the variables before dbx unchanged and dbx without its last bytes |
| Runs.DbxOversizedExists | tdx-tools/utils/ovmfkeyenroll/ovmfkeyenroll/var_enroll.py:732-740 | a 20-byte file that passes the argument check and announces a 116-byte header |
| Signatures.ListBlobReads | tdx-tools/utils/ovmfkeyenroll/ovmfkeyenroll/var_enroll.py:578-600 | a printed signature list reads back as its owner and certificate, whatever follows it |
| Signatures.ListLayout | tdx-tools/utils/ovmfkeyenroll/ovmfkeyenroll/var_enroll.py:578-600 | a printed signature list byte for byte: type, list size, header size, signature size, owner, certificate |
| Signatures.DatabaseRoundTrip | tdx-tools/utils/ovmfkeyenroll/ovmfkeyenroll/var_enroll.py:640-666 | joined signature lists split, by each list's size field, into exactly the enrolled certificates in order |
| Signatures.ReadDatabaseSound | tdx-tools/utils/ovmfkeyenroll/ovmfkeyenroll/var_enroll.py:640-666 | whatever splits, by each list's size field, is such a joined database of well-formed lists |
| SecureBoot.CertRunResolves | tdx-tools/utils/ovmfkeyenroll/ovmfkeyenroll/var_enroll.py:668-751 | a PK, KEK or db run stores the signature list under the fixed vendor GUID with the key attributes, whatever the spelling of the name |
| SecureBoot.CertificatesDecode | tdx-tools/utils/ovmfkeyenroll/ovmfkeyenroll/var_enroll.py:284-297 | an ADD run and any number of APPEND runs all succeed if and only if the list sizes together fit 32 bits, and then the variable in the parsed image splits into exactly the enrolled certificates, its size the sum of theirs |
| SecureBoot.AddRunsEffect | tdx-tools/utils/ovmfkeyenroll/ovmfkeyenroll/var_enroll.py:857-858 | ADD runs of distinct variables each leave their own data, attributes and time and nothing else |
| SecureBoot.SecureBootEnrolls | tdx-tools/utils/ovmfkeyenroll/ovmfkeyenroll/secure_boot.py:140-220 | the secure-boot run succeeds if and only if every configured run resolves to an edit whose numbers fit, and then each configured key holds exactly its certificate, dbx its payload, SecureBootEnable its file with attributes 3, and all other variables are untouched |
| Effects.RunEffect | tdx-tools/utils/ovmfkeyenroll/ovmfkeyenroll/var_enroll.py:640-874 | for any arguments and store: when a run reports success, and the data, attributes, time, order and untouched entries it leaves, for adding, appending, deleting and updating |
| Effects.EnrolledIs | tdx-tools/utils/ovmfkeyenroll/ovmfkeyenroll/var_enroll.py:668-780 | what one file stores under which key: list, payload or the file itself, and when it is refused |
| Effects.ArgumentsChecked | tdx-tools/utils/ovmfkeyenroll/ovmfkeyenroll/var_enroll.py:887-911 | a GUID is always needed, a data file and numeric attributes only for what is not a deletion |
| Effects.KeyNames | tdx-tools/utils/ovmfkeyenroll/ovmfkeyenroll/var_enroll.py:782-820 | which names are PK, KEK, db and dbx: their letters in either case |
| Effects.RunOnImage | tdx-tools/utils/ovmfkeyenroll/ovmfkeyenroll/var_enroll.py:913-944 | on which images a run raises, never ends or fails without looking at its arguments, byte for byte |
| Effects.SecureBootOrder | tdx-tools/utils/ovmfkeyenroll/ovmfkeyenroll/secure_boot.py:140-220 | on a store without them the secure-boot variables are appended as PK, KEK, db, dbx, SecureBootEnable, as far as configured |
| Blank.BlankHolds | tdx-tools/utils/ovmfkeyenroll/ovmfkeyenroll/var_enroll.py:610-638 | every layout that fits its header fields has an image the search finds both headers in, with no variables, so the run theorems have a start |
| Blank.DefaultSecureBoot | tdx-tools/utils/ovmfkeyenroll/ovmfkeyenroll/secure_boot.py:245-249 | the default configuration over such an image with room for one record succeeds, and the parsed store then holds SecureBootEnable only |
| Blank.AccentedNameLocksOut | tdx-tools/utils/ovmfkeyenroll/ovmfkeyenroll/var_enroll.py:309-315 | on every such image with room, adding a variable named by one non-ASCII letter reports success, and every later run raises |
| Blank.ShortDbxSpoils | tdx-tools/utils/ovmfkeyenroll/ovmfkeyenroll/var_enroll.py:732-740 | on every such image with room, a dbx ADD followed by an APPEND of a file 96 bytes short of its header both report success, and the image does not hold the result |
| VariableStore.VariableTimeBasedAuth.Update | tdx-tools/utils/ovmfkeyenroll/ovmfkeyenroll/var_enroll.py:284-297 | the updated record, and that replacing leaves the full size stale |
| VariableStore.Store.FindVarInList | tdx-tools/utils/ovmfkeyenroll/ovmfkeyenroll/var_enroll.py:434-440 | the first object with the key, or null if there is none |
| VariableStore.Store.DelVariable | tdx-tools/utils/ovmfkeyenroll/ovmfkeyenroll/var_enroll.py:379-399 | the list without the first variable of the key, and whether there was one |
| VariableStore.Store.AddVariable | tdx-tools/utils/ovmfkeyenroll/ovmfkeyenroll/var_enroll.py:401-432 | the list with the variable updated in place or appended |
| VariableStore.Store.SyncToFile | tdx-tools/utils/ovmfkeyenroll/ovmfkeyenroll/var_enroll.py:442-470 | the rewritten image, or nothing if some record does not pack |
| VariableStore.Store.SyncToVarsList | tdx-tools/utils/ovmfkeyenroll/ovmfkeyenroll/var_enroll.py:483-511 | the parsed records and the covered size, failing exactly where the parse raises |
| VariableStore.FindStore | tdx-tools/utils/ovmfkeyenroll/ovmfkeyenroll/var_enroll.py:610-638 | the search loop, the store header and the record walk give what `StoreImage.FindVarInfo` specifies |
| VariableStore.VarEnroll | tdx-tools/utils/ovmfkeyenroll/ovmfkeyenroll/var_enroll.py:913-944 | the object-level run has the outcome `Enroll.Run` specifies |
| VariableStore.DoVarEnroll | tdx-tools/utils/ovmfkeyenroll/ovmfkeyenroll/secure_boot.py:140-220 | the five steps over the temporary image have the outcome of the run sequence that stops at the first failure |
| EventLog.SpecRoundTrip | tdx-tools/attestation/pytdxattest/pytdxattest/tdeventlog.py:204-219 | parsing an encoded Spec ID record recovers the size table, the register index minus one and the length |
| EventLog.SpecCut | tdx-tools/attestation/pytdxattest/pytdxattest/tdeventlog.py:215-219 | a Spec ID record whose vendor bytes are cut off still parses, with its declared length |
| EventLog.EventRoundTrip | tdx-tools/attestation/pytdxattest/pytdxattest/tdeventlog.py:253-267 | parsing an encoded event record recovers every digest, the event and the register index minus one |
| LogWalk.LogRoundTrip | tdx-tools/attestation/pytdxattest/pytdxattest/actor.py:121-155 | for every encoded log, ended by an end mark or by its length, which the last record may exceed, the parser recovers the table and every event in order |
| LogWalk.CutShortRaises | tdx-tools/attestation/pytdxattest/pytdxattest/actor.py:135-141 | the walk raises when fewer than eight bytes are left before the declared end, even at an end mark |
| LogWalk.SpecSound | tdx-tools/attestation/pytdxattest/pytdxattest/tdeventlog.py:204-219 | whatever parses as a Spec ID record, under its event type and within the data, is the encoding of a valid one |
| LogWalk.EntrySound | tdx-tools/attestation/pytdxattest/pytdxattest/tdeventlog.py:163-175 | whatever parses as an event is the encoding of an event with declared algorithms and non-empty data |
| LogWalk.WalkSound | tdx-tools/attestation/pytdxattest/pytdxattest/actor.py:135-155 | behind its Spec ID record, whatever parses is a concatenation of encoded events at their own addresses |
| LogWalk.LogSound | tdx-tools/attestation/pytdxattest/pytdxattest/actor.py:121-155 | whatever log parses with one Spec ID record, at its start and within the data, is the encoding of one valid Spec ID record and valid events, parsed as exactly those, up to an end mark or the declared length |
| LogWalk.LogTiles | tdx-tools/attestation/pytdxattest/pytdxattest/actor.py:182-201 | the raw slices join to the consumed bytes, and re-summed addresses equal those assigned while parsing |
| Replay.GroupedEqualsMachine | tdx-tools/attestation/pytdxattest/pytdxattest/actor.py:103-113 | grouping and hashing gives the values of four registers extended one event at a time in log order |
| Replay.MachineConcat | tdx-tools/attestation/pytdxattest/pytdxattest/actor.py:157-180 | replaying a log and its continuation is replaying the continuation from the first result |
| Replay.ChainBinds | tdx-tools/attestation/pytdxattest/pytdxattest/actor.py:103-113 | equal chain values mean equal digest lists, or the two chains themselves hold a collision or a preimage of zero |
| Replay.RtmrEqualIff | tdx-tools/attestation/pytdxattest/pytdxattest/rtmr.py:31-35 | two values compare equal if and only if they agree on their first 48 bytes, and comparing raises if one is shorter |
| Replay.HonestLogPasses | tdx-tools/attestation/pytdxattest/pytdxattest/actor.py:27-35 | a reported register verifies if and only if it is what zeroing it and extending it by the same events gives |
| Replay.VerificationBinds | tdx-tools/attestation/pytdxattest/pytdxattest/actor.py:27-76 | two logs that verify against the same register replay the same digests, or break the hash on inputs they supply |
| EventLogActor.ScanIsWalk | tdx-tools/attestation/pytdxattest/pytdxattest/actor.py:135-155 | the record loop succeeds exactly when the log parses, and then holds the parsed Spec ID record and events |
| EventLogActor.ProcessAgain | tdx-tools/attestation/pytdxattest/pytdxattest/actor.py:125-155 | a second call does nothing and reports success once a Spec ID object is held, even one whose parsing raised; otherwise it reports what the first did and lists every event again |
| EventLogActor.ProcessTwice | tdx-tools/attestation/pytdxattest/pytdxattest/actor.py:125-126 | a second call after a successful one changes nothing if and only if the first found a Spec ID record or no events |
| EventLogActor.BareLogListedTwice | tdx-tools/attestation/pytdxattest/pytdxattest/actor.py:125-155 | a 17-byte log of one event without digests parses, and the second call lists that event twice |
| EventLogActor.CallsSettle | tdx-tools/attestation/pytdxattest/pytdxattest/actor.py:121-201 | if the first call met a Spec ID record, or no events and no exception, then after any sequence of process, replay and dump calls the actor holds what the first call read, and the registers are the replayed values as soon as one replay went through |
| EventLogActor.CutSpecReplaysZero | tdx-tools/attestation/pytdxattest/pytdxattest/actor.py:143-146 | if the first record is a Spec ID record that does not parse, the first replay raises and the second succeeds with four zero registers |
| EventLogActor.VerdictsAreExact | tdx-tools/attestation/pytdxattest/pytdxattest/actor.py:37-76 | for every log that replays, each of the four verdicts is true if and only if the reported register is the one extended by the log |
| EventLogActor.UnreadableLog | tdx-tools/attestation/pytdxattest/pytdxattest/actor.py:92-101 | a log that may not be read counts as empty and replays to zero registers; an empty file raises |
| EventLogActor.VerifyActor.VerifyRtmr | tdx-tools/attestation/pytdxattest/pytdxattest/actor.py:37-76 | replays with a fresh actor and gives the four verdicts |
| EventLogActor.TDEventLogSpecIdHeader.Parse | tdx-tools/attestation/pytdxattest/pytdxattest/tdeventlog.py:204-219 | exactly when an assertion fails, and the fields afterwards in either case |
| EventLogActor.TDEventLogEntry.Parse | tdx-tools/attestation/pytdxattest/pytdxattest/tdeventlog.py:253-267 | the fields after parsing, and exactly when parsing raises |
| EventLogActor.TDEventLogActor.Process | tdx-tools/attestation/pytdxattest/pytdxattest/actor.py:121-155 | whether an exception escapes, and the Spec ID object and events held afterwards in either case |
| EventLogActor.TDEventLogActor.ReplayGroups | tdx-tools/attestation/pytdxattest/pytdxattest/actor.py:164-178 | the dictionary of the four replayed values, or nothing if and only if an event names no register or has no digest |
| EventLogActor.TDEventLogActor.Replay | tdx-tools/attestation/pytdxattest/pytdxattest/actor.py:157-180 | whether it raises, the log held and the registers afterwards, unchanged on failure |
| EventLogActor.TDEventLogActor.DumpTdEventLogs | tdx-tools/attestation/pytdxattest/pytdxattest/actor.py:182-201 | the addresses printed by the re-walk, and that it raises without a fully parsed Spec ID record |
| Quote.ReceivedIffTailZero | tdx-tools/attestation/pytdxattest/pytdxattest/utility.py:302-335 | the message read back through the length prefix is the built one if and only if it fits and its cut-off bytes are zero |
| Quote.RequestFaithful | tdx-tools/attestation/pytdxattest/pytdxattest/utility.py:209-240 | the same in terms of the report, for reports of every length |
| Quote.RequestFields | tdx-tools/attestation/pytdxattest/pytdxattest/utility.py:322-333 | the fields the host reads: version, status, an input length of prefix and message, output length, and the big-endian prefix |
| Quote.MessageFields | tdx-tools/attestation/pytdxattest/pytdxattest/utility.py:226-240 | the fields of the wrapped message, and the report behind them |
| Quote.RequestExists | tdx-tools/attestation/pytdxattest/pytdxattest/utility.py:322-334 | a request is built if and only if the report leaves room for the 28 bytes in front |
| Quote.FrameRead | tdx-tools/attestation/pytdxattest/pytdxattest/utility.py:242-262 | exactly which framed responses are refused, and which bytes the others return, clipped at the end of the buffer |
| Quote.EveryBufferIsFramed | tdx-tools/attestation/pytdxattest/pytdxattest/utility.py:342-362 | every returned buffer is such a frame |
| Quote.QuoteRoundTrip | tdx-tools/attestation/pytdxattest/pytdxattest/utility.py:342-362 | with agreeing lengths and one right header field, a quote that follows the header comes back whole |
| Quote.SelectedIdTaken | tdx-tools/attestation/pytdxattest/pytdxattest/utility.py:258-262 | a selected id is returned as the start of the quote, whose end is missing |
| Quote.DeviceNode.CreateTdxQuoteReq | tdx-tools/attestation/pytdxattest/pytdxattest/utility.py:302-340 | the device buffer after building a request, and when none is built |
| Cmdline.RemoveFieldsTokens | tdx-tools/utils/pycloudstack/pycloudstack/vmparam.py:133-143 | removing a key leaves exactly the tokens with another key, in order |
| Cmdline.RemoveFieldsSpelled | tdx-tools/utils/pycloudstack/pycloudstack/vmparam.py:133-143 | the removed tokens are the stripped key itself and those that start with it and an equals sign; a key with an equals sign removes nothing |
| Cmdline.RemoveFieldsText | tdx-tools/utils/pycloudstack/pycloudstack/vmparam.py:133-143 | the exact text that remains, empty items included |
| Cmdline.KeySpelled | tdx-tools/utils/pycloudstack/pycloudstack/vmparam.py:140 | an item has a key if and only if it is the key or the key, an equals sign and anything |
| Cmdline.SplitIsJoin | tdx-tools/utils/pycloudstack/pycloudstack/vmparam.py:138 | splitting gives items without spaces that join to the text again |
| Cmdline.StripIs | tdx-tools/utils/pycloudstack/pycloudstack/vmparam.py:138 | stripping takes away the spaces at both ends and nothing else |
| Cmdline.IAddTokens | tdx-tools/utils/pycloudstack/pycloudstack/vmparam.py:72-76 | appending a single-spaced value adds it at most once, makes its tokens present and is idempotent |
| Cmdline.IAddAny | tdx-tools/utils/pycloudstack/pycloudstack/vmparam.py:72-76 | any value is appended in whole copies, at most one for each of its items, none if and only if all items are there; afterwards its tokens are present |
| Cmdline.KernelCmdline.Append | tdx-tools/utils/pycloudstack/pycloudstack/vmparam.py:72-76 | the command line after the loop over the value's items |
| Cmdline.KernelCmdline.Remove | tdx-tools/utils/pycloudstack/pycloudstack/vmparam.py:133-143 | the command line after the loop over its items |
| XmlTree.AddKeeps | tdx-tools/utils/pycloudstack/pycloudstack/virtxml.py:575-611 | adding an element changes no single-element lookup on a path that parts ways with it |
| XmlTree.UpdateKeeps | tdx-tools/utils/pycloudstack/pycloudstack/virtxml.py:548-573 | setting a text or attribute changes no lookup on such a path |
| XmlTree.DeleteRemoves | tdx-tools/utils/pycloudstack/pycloudstack/virtxml.py:613-631 | deleting a single element leaves none at its path |
| XmlTree.AddAtFirst | tdx-tools/utils/pycloudstack/pycloudstack/virtxml.py:575-611 | adding follows first matches; the leaf then has the given attributes over those it had, or is new |
| XmlTree.AddSets | tdx-tools/utils/pycloudstack/pycloudstack/virtxml.py:575-611 | where no step has a choice, the single element at the path is that leaf |
| XmlTree.UpdateSets | tdx-tools/utils/pycloudstack/pycloudstack/virtxml.py:548-573 | the single element at a path has the new text or attribute and is otherwise as it was |
| XmlTree.LeafAdded | tdx-tools/utils/pycloudstack/pycloudstack/virtxml.py:597-599 | a repeatable leaf is put last among its kind and leaves the other kinds alone |
| VirtXml.ApplyAgrees | tdx-tools/utils/pycloudstack/pycloudstack/virtxml.py:69-185 | every setter and every addition keeps all cached fields equal to fresh lookups |
| VirtXml.FieldElements | tdx-tools/utils/pycloudstack/pycloudstack/virtxml.py:378-401 | which element or attribute each cached field reads |
| VirtXml.SetTakesEffect | tdx-tools/utils/pycloudstack/pycloudstack/virtxml.py:69-143 | a setter leaves its value in cache and tree if the element is there, deletes a kernel or command line set to nothing, changes nothing or raises if the element is missing, and touches no other field |
| VirtXml.LastSetterWins | tdx-tools/utils/pycloudstack/pycloudstack/virtxml.py:69-143 | after loading and any operations each field is what its own setters, in order, make of what was loaded |
| VirtXml.OperationsRaise | tdx-tools/utils/pycloudstack/pycloudstack/virtxml.py:69-143 | operations raise if and only if the setters of some field do |
| VirtXml.LoadRaises | tdx-tools/utils/pycloudstack/pycloudstack/virtxml.py:395-399 | loading raises if and only if there is not exactly one disk driver and one disk source |
| VirtXml.LoadAndApplyAgrees | tdx-tools/utils/pycloudstack/pycloudstack/virtxml.py:378-401 | after loading any description and any sequence of setters and of hugepage, NUMA, vsock, vTPM, command-line and pin additions, every cached field equals a fresh lookup, and a field no setter named is still what was loaded |
| VirtXml.AdditionsApart | tdx-tools/utils/pycloudstack/pycloudstack/virtxml.py:658-813 | hugepage, NUMA, vsock, vTPM, command-line and pin additions touch no cached field |
| VirtXml.HugepageParamsEffect | tdx-tools/utils/pycloudstack/pycloudstack/virtxml.py:658-668 | the page element has the unit and size |
| VirtXml.HugepagePathEffect | tdx-tools/utils/pycloudstack/pycloudstack/virtxml.py:795-802 | the path element has the text |
| VirtXml.MemNumaEffect | tdx-tools/utils/pycloudstack/pycloudstack/virtxml.py:725-735 | the memory element is strict, on node 0 for near memory and 1 otherwise |
| VirtXml.VsockEffect | tdx-tools/utils/pycloudstack/pycloudstack/virtxml.py:771-780 | the cid element has the fixed address, its parent the virtio model |
| VirtXml.VtpmEffect | tdx-tools/utils/pycloudstack/pycloudstack/virtxml.py:804-814 | the loader and log elements have the two texts |
| VirtXml.RepeatedEffect | tdx-tools/utils/pycloudstack/pycloudstack/virtxml.py:680-723 | command-line arguments and pins are put last among their kind |
| VirtXml.VirtXml.FindSingleElement | tdx-tools/utils/pycloudstack/pycloudstack/virtxml.py:512-531 | the element at a path if every step finds exactly one child |
| VirtXml.VirtXml.SetField | tdx-tools/utils/pycloudstack/pycloudstack/virtxml.py:69-143 | tree and cache after a setter, still agreeing |
| CpuPins.GetCpuidsGroup | tdx-tools/utils/pycloudstack/pycloudstack/dut.py:110-126 | group `i` holds every `vm_num`-th CPU from `i` on, and when the size assertion fails |
| CpuPins.DealtOnce | tdx-tools/utils/pycloudstack/pycloudstack/dut.py:118-125 | over a duplicate-free host list no CPU is dealt twice, within or across groups |
| CpuPins.DealsAPrefix | tdx-tools/utils/pycloudstack/pycloudstack/dut.py:110-126 | the groups together hold exactly the first `vm_num * (core_num + 1)` CPUs |
| CpuPins.BindCpuids | tdx-tools/utils/pycloudstack/pycloudstack/virtxml.py:708-723 | the pins added: one for the I/O thread, then vCPUs numbered from 0 in order; the cache still agrees |
| CpuPins.PinsName | tdx-tools/utils/pycloudstack/pycloudstack/virtxml.py:714-722 | the first pin is for I/O thread 1, pin k for vCPU k-1, each naming its host CPU in decimal |
| CpuPins.DecDenotes | tdx-tools/utils/pycloudstack/pycloudstack/virtxml.py:716-721 | the decimal text of a number denotes it, without leading zeros |
| CpuPins.PinsNeverShare | tdx-tools/utils/pycloudstack/pycloudstack/virtxml.py:708-723 | over a duplicate-free host list, two pins among all those the machines get for their groups name the same host CPU if and only if they are the same pin |
| CpuPins.BindMachines | tdx-tools/utils/pycloudstack/pycloudstack/dut.py:110-126 | dealing and binding all machines: each description gains exactly the pins for its group, none of which share a CPU; it fails with nothing bound exactly when the list is too short or a machine would get no vCPU |

## Left out

- Runs.RunsRefineOrderedMap: requires that every map on the way fits the region, since the code has no capacity check; `StoreImage.SyncEffect` says what a longer list overwrites.
- Guid.TextRoundTrip: texts longer than 36 characters, which the pattern also accepts because it matches a prefix, are not modelled.
- EventLogActor.TDEventLogActor.Process: the actor keeps parsed events as values, since nothing changes them after parsing; a log file that is missing, which raises, is not told apart from an empty one.
- VirtXml.ApplyAgrees: `set_disk` and `set_driver` are not modelled, since a second disk makes the disk lookups fail; nor are the fields that are cached without being loaded (`logfile`, `sockets`, `cores`, `threads`, `qemu_exec`).
- Cmdline.IAddTokens: is about single-spaced values; others can be appended more than once (`Cmdline.TrailingSpaceTwice`), and `Cmdline.IAddAny` says what holds for all.
- Names are given as their UTF-8 bytes; lower-casing acts on ASCII letters only.
- The device node version is a parameter; TDX 1.5 is "not supported" as in the source. Device calls and buffer addresses are not modelled.
- File opening, missing or unreadable files beyond the cases above, and errors while writing.
- SHA-384 itself and the clock: the hash is any 48-byte function and the time is an input.
- EFI_TIME is its 16 bytes; field-by-field access is only used for printing.
- X.509 contents: a certificate is any byte string.
- XML text: the model stops at the element tree; saving and loading text are not modelled, nor is the order of attributes.
- Conversions of numbers to text in the memory and vCPU setters, which happen before the field is compared.
- Argument parsing and `set_sbconfig`, printing, and the TD report request.
- The ACPI table and the TD report: where the log lies and the four reported registers are inputs of the verification.
- The check that a huge page size is 2M or 1G, and `enable_ssh_forward_port`, one of whose attributes is a dictionary that cannot be saved.
