# CoreDump_Extractor, modelled in Dafny

CoreDump_Extractor collects crash dumps from ESP32 devices and groups similar crashes.

- **Firmware.** After a crash reset, the ESP32 firmware reads its core-dump image from flash. It cuts the image into chunks, Base64-encodes each chunk (RFC 4648 section 4) and publishes them over MQTT:
  - a metadata message `{"parts":N}` on `coredump/<mac>`;
  - the parts on `coredump/<mac>/1` … `coredump/<mac>/N`.

  The image is erased only when the whole upload succeeded.
- **Receiving.** The backend keeps one reassembly session per device MAC. It decodes each part when it looks like Base64, stores the first payload per index, completes on indices 0..N−1 or 1..N, and concatenates the parts in index order. Two receivers exist: the component receiver and the older subscriber. Each session's dump is registered against the device's firmware row, and `esp-coredump` is run in a Docker container to produce a text report.
- **Naming.** Each report is named from its crash signature: exception, function, file and line, plus a hash of the register block.
- **Clustering.** A clustering round runs DAMICORE when enough coredumps are unclustered or enough time has passed. The reconciler then maps the old clusters onto the newly computed labels:
  - the Jaccard-only variant maps by best Jaccard similarity;
  - the mixed variant uses Jaccard similarity plus an overlap coefficient, with tiers for evolution, growth, split, drastic change and merge.
- **Synchronizing.** The synchronizer applies the reconciliation to the store. It picks merge survivors, deletes vanished clusters, creates new ones, and reassigns every coredump.
- **Dashboard.** The analysis dashboard summarises the store.

## How the model is built

One Dafny module models each part of the core.

| module | models |
|---|---|
| `UploadInfo`, `Upload`, `UploadProps` | the uploader |
| `Device` | the firmware's MQTT callbacks |
| `Base64`, `Session`, `Receiver`, `Subscriber`, `Ingest`, `Registration` | reassembly and registration |
| `Interpreter` | the report generator |
| `NameCoredump` | report naming |
| `Similarity`, `Clusters`, `JaccardReconciler` | the Jaccard-only reconciler |
| `MixedSpec`, `MixedReconciler`, `MixedProperties`, `MixedMerge`, `MixedFusions` | the mixed reconciler |
| `SyncLoad`, `SyncPlan`, `Creation`, `Synchronizer`, `Store` | the synchronizer and the store it uses |
| `Clusterizer` | the current clustering round |
| `LegacyClustering` | the older clustering round |
| `Dashboard` | the dashboard |

Where the source changes state step by step, the model is imperative:

- Sessions, the session tables, the store and the device context are classes whose methods modify their fields.
- The source's loops are `while` loops with invariants.
- Each method is proved equal to a specification function, and the properties are lemmas about those functions.

The following are parameters of the model, not computed by it:

- The file system.
- The clock: times are arguments.
- The container runs: they are outcomes passed in.
- JSON and CSV parsing: given as parsed values.
- The two regular-expression searches and SHA-1: functions of the text.
- The flash and the MQTT publish results: a byte sequence and sets of failing calls.
- The SQLite database: an in-memory store of positional rows, keeping the column order of `backend/db_manager.py`.

Metrics and thresholds are exact reals.

## Model

| member | source | states |
|---|---|---|
| Base64.ValueOfSymbol | backend/components/receiver_mqtt.py:88 | every 6-bit value's symbol of the RFC 4648 section 4 alphabet maps back to that value |
| Base64.SymbolOfValue | backend/components/receiver_mqtt.py:88 | every alphabet symbol is the symbol of its own value, so the alphabet and [0, 64) are in bijection |
| Base64.EncodedSizeQuads | main/coredump_uploader/coredump_uploader.c:36-38 | the encoded size 4·⌈n/3⌉ is a whole number of quads, one more quad for every three more bytes |
| Base64.Encode | main/coredump_uploader/coredump_uploader.c:149 | the encoding of n bytes is exactly `_b64_encoded_size(n)` bytes long |
| Base64.GroupRoundTrip | backend/components/receiver_mqtt.py:98 | the quad encoding three bytes decodes to those three bytes |
| Base64.PaddedRoundTrip | backend/components/receiver_mqtt.py:98 | the padded quad encoding one or two trailing bytes decodes to those bytes |
| Base64.DecodeEncode | backend/components/receiver_mqtt.py:98 | strict decoding undoes encoding for every byte string |
| Base64.DecodedInCharset | backend/components/receiver_mqtt.py:93-96 | a string that decodes strictly holds only bytes of the accepted character set (the alphabet and "=") |
| Base64.DecodedLength | backend/components/receiver_mqtt.py:93-103 | a string that decodes strictly has a length divisible by 4 and q quads give between 3q − 2 and 3q bytes |
| Base64.RatioBounds | backend/components/receiver_mqtt.py:102-106 | a strictly decodable payload of at least 8 bytes always has decoded/encoded ratio in [0.5, 0.75], inside the accepted [0.45, 0.85] |
| Base64.MaybeDecodeExactly | backend/components/receiver_mqtt.py:91-107 | `maybe_decode_base64` decodes exactly when the switch is on, the payload has at least 8 bytes and it decodes strictly; otherwise it returns the payload unchanged with False |
| Base64.NulNeverDecoded | backend/components/receiver_mqtt.py:95-96 | a payload containing a 0x00 byte is always returned unchanged, with False |
| Base64.MaybeDecodeEncoded | backend/components/receiver_mqtt.py:91-107 | the encoding of four or more bytes is recognised and decoded back to those bytes |
| Similarity.Jaccard | backend/cluster_reconciler.py:77-86 | `calcular_jaccard` lies in [0, 1], is 1.0 for two empty sets and #(A∩B) / #(A∪B) otherwise |
| Similarity.JaccardExtremes | backend/cluster_reconciler.py:77-86 | the index is 1.0 exactly for equal sets and 0.0 exactly for disjoint sets that are not both empty |
| Similarity.JaccardSymmetric | backend/cluster_reconciler.py:77-86 | the Jaccard index is symmetric |
| Similarity.Overlap | backend/cluster_reconciler.py:88-95 | `calcular_coeficiente_sobreposicao` lies in [0, 1], is 1.0 for two empty sets, 0.0 when exactly one is empty, else #(A∩B) / min(#A, #B) |
| Similarity.OverlapSymmetric | backend/cluster_reconciler.py:88-95 | the overlap coefficient is symmetric |
| Similarity.OverlapOneIffContained | backend/cluster_reconciler.py:88-95 | the overlap is 1.0 exactly when one set contains the other, except one empty and one non-empty set |
| Similarity.JaccardAtMostOverlap | backend/cluster_reconciler.py:77-95 | for two non-empty sets the Jaccard index never exceeds the overlap coefficient |
| Interpreter.ExtractReport | backend/coredump_interpreter.py:94-112 | `_extract_report` keeps the stripped text between the first start marker and the first end marker at or after it, and gives the whole output back when either marker is missing |
| Interpreter.ReportRecovered | backend/coredump_interpreter.py:94-112 | a report printed once between the two markers is recovered, stripped, whatever precedes and follows it |
| Interpreter.InnerWords | backend/coredump_interpreter.py:61-76 | the `esp-coredump info_corefile --core-format raw --core <dump>` words, the `--rom-elf` pair exactly when a chip is given, and the ELF name last |
| Interpreter.DockerCommand | backend/coredump_interpreter.py:49-91 | the 13-word `docker run --rm -w /app` command mounting the dump and the ELF read-only under their base names, the image, and the inner command as one `bash -c` argument |
| Interpreter.InnerCommandWords | backend/coredump_interpreter.py:64-79 | when no name holds a space, the shell's split of the joined inner command gives back exactly its words |
| Interpreter.GenerateReport | backend/coredump_interpreter.py:115-208 | the dump, the ELF and the output directory are checked in that order, each missing one failing with FileNotFoundError before any run; the container runs only after all three, with the given image and timeout or the environment's defaults when they are empty or zero; a run failure, a missing `docker` and a failed write each become CoreDumpProcessingError, and success writes the extracted report |
| Interpreter.ReportOnlyAfterChecks | backend/coredump_interpreter.py:138-182 | a report is produced only when all three paths exist, the run completed and the write succeeded, and it is `<output dir>/<dump stem>.txt` |
| NameCoredump.Cleaned | backend/name_coredump.py:14-18 | the kept lines are never more than the input lines, and each is non-blank and stripped |
| NameCoredump.PreprocessContent | backend/name_coredump.py:6-20 | the loop of `preprocess_content` computes the stripped non-blank lines joined by newlines |
| NameCoredump.PreprocessedLines | backend/name_coredump.py:6-20 | splitting the cleaned text into lines gives back exactly the cleaned lines, none blank and none with surrounding whitespace |
| NameCoredump.PreprocessIdempotent | backend/name_coredump.py:6-20 | cleaning an already cleaned text changes nothing |
| NameCoredump.ExtractRegisterBlock | backend/name_coredump.py:22-44 | `extract_register_block` is None when the registers marker or a later stack marker is missing, else the stripped text between the first of each |
| NameCoredump.ClusterName | backend/name_coredump.py:46-116 | a missing file gives `Error_FileNotFound: <path>`, another read error `Error_General: <message>`; an absent or empty register block gives `Error_CouldNotParseRegisterBlock` whatever the signature; with a block, a complete signature gives `<exception>_<function>_<file>_<line>_REGS-HASH-<10 hex digits>` and an incomplete one `Error_CouldNotParseSignature` |
| NameCoredump.NameEndsWithHash | backend/name_coredump.py:91-108 | a crash name ends with "-" and the first ten hex digits of its register block's SHA-1, so two crashes whose names agree have the same hash prefix |
| UploadInfo.NeedUploadExactly | main/coredump_uploader/coredump_uploader.c:14-33 | `coredump_uploader_need_upload` is true exactly for the panic, the three watchdog resets and the unknown reset, and false for power-on, software and deep-sleep resets |
| UploadInfo.EncodedSizeExact | main/coredump_uploader/coredump_uploader.c:36-38 | when no `size_t` wraps, the firmware's encoded size is the base64 size 4·⌈n/3⌉, at most (4n + 8)/3 |
| UploadInfo.ChunkSizeRules | main/coredump_uploader/coredump_uploader.c:52-59 | the chunk is never 0: 768 when none is asked, the asked size without base64, and with base64 the largest multiple of 3 not above it, or 3 for a request of 1 or 2 |
| UploadInfo.Ceiling | main/coredump_uploader/coredump_uploader.c:61-62 | on unbounded integers ⌈size/chunk⌉ chunks, all full but the last of `last_chunk_size` bytes, tile the image exactly |
| UploadInfo.InfoErrors | main/coredump_uploader/coredump_uploader.c:43-50 | `get_info` fails exactly when reading the image fails or the image is empty, with the read's error or ESP_ERR_NOT_FOUND, and then leaves the zeroed record |
| UploadInfo.LayoutTiles | main/coredump_uploader/coredump_uploader.c:52-69 | when size + chunk fits a `size_t`, the record keeps the address, the size and the mode, and its chunk count and last chunk size tile the image |
| UploadInfo.HugeChunkWraps | main/coredump_uploader/coredump_uploader.c:61 | a requested chunk of SIZE_MAX bytes makes `size + chunk - 1` wrap and gives a 10-byte image zero chunks, with and without base64 |
| UploadInfo.LayoutFixedTiles | main/coredump_uploader/coredump_uploader.c:61-62 | the chunk count computed without the wrapping sum tiles every non-empty image for every request |
| UploadInfo.LayoutFixedAgrees | main/coredump_uploader/coredump_uploader.c:61-62 | wherever the firmware's sum does not wrap, the corrected count gives the same record |
| UploadInfo.ChunkingKept | main/coredump_uploader/coredump_uploader.c:71-75 | filling in the base64 sizes leaves address, size, mode and chunking as they were |
| UploadInfo.EncodedPrefixWhole | main/coredump_uploader/coredump_uploader.c:72-74 | the encoded length of the first k full chunks is k times the encoded chunk size |
| UploadInfo.WholeChunksEncoded | main/coredump_uploader/coredump_uploader.c:54-56 | a multiple-of-3 chunk encodes without padding: k such chunks take exactly 4/3 of their bytes |
| UploadInfo.TotalNoWrap | main/coredump_uploader/coredump_uploader.c:74 | for an image small enough for its encoding to fit a `size_t`, the encoded total does not wrap |
| UploadInfo.SizesOfTiles | main/coredump_uploader/coredump_uploader.c:71-75 | on a tiling base64 record the encoded chunk, last chunk and total equal the base64 sizes of the real chunks, the total being the sum over all chunks |
| UploadInfo.Base64Total | main/coredump_uploader/coredump_uploader.c:52-75 | for an image whose encoding fits a `size_t`, `b64_total_size` is the total length of the encoded chunks the upload sends |
| UploadInfo.GetInfo | main/coredump_uploader/coredump_uploader.c:40-77 | a NULL record gives ESP_ERR_INVALID_ARG; otherwise the result is the image error or ESP_OK and the record holds the computed layout on success, zeroes on failure |
| Upload.LastFitsBuffer | main/coredump_uploader/coredump_uploader.c:52-62 | the layout `get_info` computes never has a last chunk longer than `chunk_size`, so the read buffer always holds it |
| Upload.Upload | main/coredump_uploader/coredump_uploader.c:79-200 | `coredump_upload` makes exactly the calls, and returns exactly the status, of the upload description: ESP_ERR_INVALID_ARG without `write`, the `get_info` error for a NULL `info` without a dump, the transfer otherwise |
| Upload.RunTransfer | main/coredump_uploader/coredump_uploader.c:98-199 | the part after `info` is known: buffer allocation, `start`, the chunk loop, `end` and the erase, as the transfer description states them |
| Upload.RunChunks | main/coredump_uploader/coredump_uploader.c:134-173 | the `for` loop makes every pass in chunk order up to and including the first that fails, and returns that pass's error |
| Upload.Pass | main/coredump_uploader/coredump_uploader.c:135-172 | one pass reads the chunk at `flash_addr + index·chunk_size`, encodes it when Base64 is on, writes it and reports progress, stopping at the first call that fails with its error (ESP_FAIL when encoding fails) |
| UploadProps.RunsToEnd | main/coredump_uploader/coredump_uploader.c:135-173 | when every pass from chunk k on succeeds, the loop returns ESP_OK after all of them, in order |
| UploadProps.StopsAtFirstFailure | main/coredump_uploader/coredump_uploader.c:135-173 | when chunk f is the first whose pass fails, the loop makes the passes up to f and returns f's error |
| UploadProps.ChunksCallNoMore | main/coredump_uploader/coredump_uploader.c:135-173 | the loop only reads, writes and reports progress: it never calls `start`, `end` or the erase |
| UploadProps.TransferRefuses | main/coredump_uploader/coredump_uploader.c:98-132 | a buffer that cannot be allocated gives ESP_ERR_NO_MEM with no call; a failing `start` makes that one call and returns its error |
| UploadProps.EndAndErase | main/coredump_uploader/coredump_uploader.c:175-193 | after a successful `start`, `end` runs once when present and only replaces an OK status, and the image is erased once, as the last call, exactly when the status is still OK, the erase's answer being returned |
| UploadProps.NullInfoDefaults | main/coredump_uploader/coredump_uploader.c:85-93 | a NULL `info` uploads the dump with the default 768-byte chunk and no Base64, at the image's address and size |
| UploadProps.CapacityFits | main/coredump_uploader/coredump_uploader.c:108-110 | the Base64 buffer sized for a full chunk plus the NUL has room for every chunk's encoding, so mbedtls never refuses it |
| UploadProps.ChunkBounds | main/coredump_uploader/coredump_uploader.c:136-139 | on a tiling layout that fits the address space, chunk k starts where chunk k − 1 ends and the last ends where the image ends |
| UploadProps.ReadAt | main/coredump_uploader/coredump_uploader.c:136-139 | pass k first reads `bytes_to_read` bytes at `flash_addr + k·chunk_size` |
| UploadProps.PassCalls | main/coredump_uploader/coredump_uploader.c:139-172 | a pass whose read, write and progress succeed makes exactly the read, the write of the (encoded) chunk and the progress report, and returns ESP_OK |
| UploadProps.StepDelivers | main/coredump_uploader/coredump_uploader.c:139-163 | such a pass hands over exactly the chunk's flash bytes, once its encoding is undone |
| UploadProps.PayloadOfSent | main/coredump_uploader/coredump_uploader.c:145-157 | the receiver's view of a written chunk is the chunk, in both modes |
| UploadProps.DeliversImage | main/coredump_uploader/coredump_uploader.c:135-173 | when nothing fails, the loop returns ESP_OK and its writes, decoded, are exactly the image's bytes in flash order |
| UploadProps.GetInfoDelivers | main/coredump_uploader/coredump_uploader.c:40-173 | with the layout `get_info` computes, an upload in which nothing fails hands over the whole coredump image |
| UploadProps.CallCounts | main/coredump_uploader/coredump_uploader.c:98-199 | the start and end callbacks are each called once when given and never otherwise, and the erase happens at most once, as the last call, exactly when asked |
| Device.MacTextFormat | main/main.c:83 | the `%02x:...` text of a MAC is 3n − 1 characters of lower-case hex pairs separated by ':', holds no '/', and gives the MAC back |
| Device.TopicFormat | main/main.c:80-83 | the device topic is the 26-character `coredump/<mac>` and its MAC part reads back to the MAC |
| Device.TopicsRoute | main/main.c:31-43 | the backend's topic routing sends the device topic with a positive part count to a session start for that MAC, and `<topic>/<n>` to part n of that session |
| Device.TopicsFit | main/main.c:18-43 | for every `int` count, the topic, a part's topic and the start message, with their NUL, fit the 128-, 150- and 64-byte buffers, so `snprintf` never truncates them |
| Device.CoredumpCtx.constructor | main/main.c:75-83 | the context starts with both counters zero and the device topic |
| Device.CoredumpCtx.Start | main/main.c:26-34 | `mqtt_coredump_start` publishes `{"parts":<quantity>}` on the topic, changes no counter and answers OK whether or not the publish was accepted |
| Device.CoredumpCtx.Write | main/main.c:37-52 | `mqtt_coredump_write` raises the count first, publishes the data on `<topic>/<count>`, and answers ESP_FAIL exactly when the publish is refused |
| Device.CoredumpCtx.Progress | main/main.c:55-58 | `progress_cb` only answers OK |
| Device.CoredumpCtx.End | main/main.c:61-65 | `mqtt_coredump_end` only answers OK |
| Device.OutboxLoop | main/main.c:37-52 | the loop's calls publish one part per write, numbered on from the count, with the data of the writes in order |
| Device.Apply | main/main.c:26-65 | one upload call applied to the context publishes what the description of that call says and raises the count only for a write |
| Device.Replay | main/main.c:96-105 | a trace of upload calls applied in order publishes the description's outbox and raises the count by the number of writes |
| Device.DefaultCount | main/main.c:93 | with the default chunk size the chunk count is below the largest `int`, so `part_quantity` holds it unchanged |
| Device.RunWritesBound | main/main.c:39 | the device's upload writes fewer parts than the largest `int`, so `part_count++` never overflows |
| Device.CheckAndUpload | main/main.c:70-113 | `check_and_upload_coredump` does nothing after a normal reset, stops at a `get_info` error, and otherwise uploads in Base64 with the default chunk and publishes exactly the description's messages |
| Device.DeviceTransfer | main/main.c:96-105 | under the device's callbacks the upload calls start, makes the loop, calls end, and erases only after a loop that ended OK |
| Device.DeliveredWrites | main/main.c:37-52 | what the writes of a trace hand over is the concatenation of the parts' decoded payloads |
| Device.PublishedInOrder | main/main.c:70-113 | whatever happens to the chunks, the start message announcing the chunk count comes first, then one part per write numbered 1, 2, ..., and the result is the erase answer after a good loop and the loop's error otherwise |
| Device.SendableLayout | main/main.c:87 | a sendable image is laid out in Base64 chunks of the default size that tile it inside the flash |
| Device.WholeLoop | main/main.c:105 | without failures the loop makes one write per chunk, and decoding the writes in turn gives back the image |
| Device.SendsWholeDump | main/main.c:70-113 | a sendable dump without failures reaches the broker whole: the start message announces N parts, parts 1..N follow in order, all accepted, decoding them gives the image, and the dump is then erased |
| Device.StepRefused | main/main.c:47-50 | a pass whose write is refused ends with that write's failure after its one write |
| Device.RefusedLoop | main/main.c:47-50 | when chunk f's publish is the first refused, the loop makes f + 1 writes and ends with ESP_FAIL |
| Device.StopsAtRefusal | main/main.c:47-50 | when part f + 1 is the first the client refuses, parts 1..f are published and accepted, part f + 1 is the last tried, and the result is ESP_FAIL |
| Device.RefusalKeepsDump | main/main.c:105 | after a refused publish the upload never erases the dump, so it is sent again at the next boot |
| Device.RunOutbox | main/main.c:26-65 | a run publishes the start message with the part count first, then one part per write, numbered from 1, and nothing for the end or the erase |
| Ingest.RouteMeta | backend/components/receiver_mqtt.py:268-283 | `<base>/<mac>` starts a session for that MAC exactly when the JSON metadata carries a positive part count, and is dropped otherwise |
| Ingest.RoutePart | backend/components/receiver_mqtt.py:284-290 | `<base>/<mac>/<n>` is part n of that MAC's transfer, for every integer n |
| Ingest.RouteShape | backend/components/receiver_mqtt.py:268-290 | conversely, only the two topic shapes reach the assembler: a start comes from `<base>/<mac>` with a positive count, a part from `<base>/<mac>/<integer>` |
| Ingest.SafeMac | backend/components/receiver_mqtt.py:175 | the MAC in a raw file name has no ':' and no '-', no ASCII lower-case letter, and is never longer than the MAC |
| Ingest.SafeMacIdempotent | backend/components/receiver_mqtt.py:175 | cleaning a cleaned MAC changes nothing |
| Ingest.SafeMacAppend | backend/components/receiver_mqtt.py:175 | the clean-up works character by character: it distributes over concatenation |
| Session.Stored | backend/components/receiver_mqtt.py:61-67 | `add_part` adds the index exactly when it lies in 0..N and is new, with the new payload, and never changes a stored payload |
| Session.Range | backend/components/receiver_mqtt.py:74-79 | the index range lo..hi − 1 holds exactly those indices and has hi − lo of them |
| Session.FillsRange | backend/components/receiver_mqtt.py:74-79 | n distinct indices inside lo..lo + n − 1 are all of them |
| Session.CompleteIff | backend/components/receiver_mqtt.py:69-79 | an unmarked session is complete exactly when N ≥ 1 and the received indices are exactly 0..N − 1 or exactly 1..N |
| Session.NeverCompleteWithAll | backend/components/receiver_mqtt.py:69-79 | a session that received all of 0..N is never complete, since it holds N + 1 parts |
| Session.CompleteOfRaises | backend/components/receiver_mqtt.py:72-76 | `is_complete` raises IndexError exactly when no part arrived and N ≤ 0 |
| Session.MinKey | backend/components/receiver_mqtt.py:82-83 | the base of a non-empty session is its smallest index |
| Session.ConcatLayout | backend/components/receiver_mqtt.py:81-85 | joining the parts base..base + n − 1 succeeds when all are present, and part k sits at its offset in the result |
| Session.CompleteBase | backend/components/receiver_mqtt.py:74-83 | a complete session's base is 0 or 1 and its indices are exactly base..base + N − 1 |
| Session.AssembledComplete | backend/components/receiver_mqtt.py:81-85 | `assemble` of a complete session succeeds and every received part appears, at its offset, in index order |
| Session.ReceivedFirst | backend/components/receiver_mqtt.py:65-67 | after a series of `add_part` calls each index holds the first in-range payload that arrived for it |
| Session.ArrivalOrderIrrelevant | backend/components/receiver_mqtt.py:61-85 | arrival order and repeats do not matter: two series that agree on the first payload per index leave the same parts and assemble to the same dump |
| Session.NumberedShape | backend/components/receiver_mqtt.py:61-67 | a transfer that sends chunk i − 1 as part i for i = 1..k leaves exactly indices 1..k holding those chunks |
| Session.ConcatNumbered | backend/components/receiver_mqtt.py:81-85 | joining such parts from j + 1 to k gives the chunks j..k − 1 concatenated |
| Session.NumberedComplete | backend/components/receiver_mqtt.py:69-79 | a transfer numbered 1..N is complete, with base 1 |
| Session.AssembledNumbered | backend/components/receiver_mqtt.py:69-85 | a transfer numbered 1..N assembles to its chunks in sending order |
| Session.SweptExactly | backend/components/receiver_mqtt.py:162-166 | `cleanup` drops exactly the uncompleted sessions older than the timeout, leaves the others unchanged, never drops a completed one, and a second sweep changes nothing |
| Session.CoreDumpSession.constructor | backend/components/receiver_mqtt.py:53-59 | a new session has no parts and is not completed |
| Session.CoreDumpSession.AddPart | backend/components/receiver_mqtt.py:61-67 | the method stores only an in-range new index and leaves `completed` alone |
| Session.CoreDumpSession.Complete | backend/components/receiver_mqtt.py:69-79 | true exactly when marked completed or the indices are exactly 0..N − 1 or 1..N; raising exactly when unmarked, empty and N ≤ 0 |
| Session.CoreDumpSession.Assemble | backend/components/receiver_mqtt.py:81-85 | `assemble` never raises on a complete session |
| Receiver.AfterPartShape | backend/components/receiver_mqtt.py:131-160 | a part changes at most its own open session: it stores the part and perhaps marks the session completed |
| Receiver.AfterPartPending | backend/components/receiver_mqtt.py:141-147 | a part that leaves an open session incomplete is stored and nothing is written |
| Receiver.AfterPartCompletes | backend/components/receiver_mqtt.py:146-160 | the part that completes a session marks it completed and writes its assembled blob to the file, whose path is returned |
| Receiver.WrittenIff | backend/components/receiver_mqtt.py:131-160 | a dump is written exactly when the session is open, the stored part completes exactly 0..N − 1 or 1..N and the write succeeds; the blob is the assembly, the session is then completed, and no other session changes |
| Receiver.CompletedIsFinal | backend/components/receiver_mqtt.py:138-140 | every part sent to a completed session is rejected, and nothing changes or is written |
| Receiver.AtMostOneWrite | backend/components/receiver_mqtt.py:138-160 | any run of parts for one MAC writes its dump at most once, and never for a completed session |
| Receiver.WriteFailureIsFinal | backend/components/receiver_mqtt.py:148-153 | since the session is marked completed before the write, a failed write is never retried by later parts |
| Receiver.Numbering | backend/components/receiver_mqtt.py:284-290 | the part messages of a transfer number chunk i as part i + 1 |
| Receiver.NextPart | backend/components/receiver_mqtt.py:61-67 | part k + 1 of such a transfer adds chunk k under index k + 1 |
| Receiver.TransferLast | backend/components/receiver_mqtt.py:146-160 | the last part of a transfer whose first N − 1 parts arrived writes the concatenated chunks |
| Receiver.TransferStep | backend/components/receiver_mqtt.py:141-147 | each earlier part of the transfer leaves it pending, one more part received |
| Receiver.TransferSuffix | backend/components/receiver_mqtt.py:131-160 | from any point of the transfer on, the remaining parts are pending until the last, which writes the dump |
| Receiver.DeliveredInOrder | backend/components/receiver_mqtt.py:117-160 | after `{"parts": N}` for a MAC without an open session, parts 1..N in order leave the dump pending N − 1 times and then write exactly the concatenation of the chunks |
| Receiver.StepKeepsWellFormed | backend/components/receiver_mqtt.py:117-166 | metadata, parts and sweeps keep every session under its own MAC and holding only indices 0..N |
| Receiver.OpenSessionOnlyGrows | backend/components/receiver_mqtt.py:117-166 | no later event changes an open session's part count or start time or a payload it holds; its parts only grow |
| Receiver.Assembler.constructor | backend/components/receiver_mqtt.py:111-115 | the assembler starts with no session |
| Receiver.Assembler.StartSession | backend/components/receiver_mqtt.py:117-129 | `start_session` refuses, changing nothing, while an uncompleted session exists for the MAC, and otherwise replaces any old one by a fresh session and answers True |
| Receiver.Assembler.AddPart | backend/components/receiver_mqtt.py:131-160 | `add_part` changes the sessions and answers as the step description of `add_part` states |
| Receiver.Assembler.Cleanup | backend/components/receiver_mqtt.py:162-166 | `cleanup` leaves exactly the swept sessions |
| Subscriber.AgreesWhileOpen | backend/subscriber.py:121-142 | on an open session with a successful write, the subscriber's `add_part` and the receiver's take the same step |
| Subscriber.WriteFailureRetried | backend/subscriber.py:128-132 | a failed write leaves the session open, so a repeated part writes the same dump again |
| Subscriber.RewrittenAfterCompletion | backend/subscriber.py:78-142 | for every completed session numbered from 0 or from 1, every later part except a part 0 of a session numbered from 1 is stored, and the subscriber writes again the dump written at completion and keeps the session completed, while the receiver rejects the part and changes nothing |
| Subscriber.TruncatedAfterCompletion | backend/subscriber.py:78-142 | for every completed session numbered from 1, a late part 0 makes the subscriber write that payload followed by parts 1..N-1, so the last part is lost, where the dump at completion was parts 1..N-1 followed by part N; the receiver rejects the part and changes nothing |
| Subscriber.RestartDiscardsParts | backend/subscriber.py:113-119 | metadata in the middle of a transfer throws away the parts already received, where the receiver keeps them |
| Subscriber.CoreDumpAssembler.constructor | backend/subscriber.py:109-111 | the assembler starts with no session |
| Subscriber.CoreDumpAssembler.StartSession | backend/subscriber.py:113-119 | `start_session` always puts a fresh session under the MAC |
| Subscriber.CoreDumpAssembler.AddPart | backend/subscriber.py:121-142 | `add_part` stores the part even into a completed session and answers as the subscriber's step description states |
| Subscriber.CoreDumpAssembler.Settle | backend/subscriber.py:128-141 | a complete session is assembled and written, and only a successful write marks it completed |
| Subscriber.CoreDumpAssembler.Cleanup | backend/subscriber.py:157-162 | `cleanup` leaves exactly the swept sessions |
| Registration.ForwardSlashes | backend/subscriber.py:206 | the stored log path has the same length, no backslash, and every other character unchanged |
| Registration.ReceiverRecordsIff | backend/components/receiver_mqtt.py:180-205 | the receiver records a dump exactly when the device row unpacks into three columns and names an existing firmware row; the raw record then comes first and only once |
| Registration.ReceiverReportIff | backend/components/receiver_mqtt.py:207-218 | a report is saved exactly when the dump was recorded, the ELF exists and the analysis succeeds, as the third effect and for the new coredump's id |
| Registration.SubscriberRecordsIff | backend/subscriber.py:164-215 | the subscriber adds a coredumps row exactly when all lookups succeed and the analysis does not raise, as its last effect, with a log path exactly when the ELF exists |
| Registration.AnalysedOnlyWithElf | backend/components/receiver_mqtt.py:195-214 | both registrations analyse only a located dump whose ELF exists, against the firmware row's ELF path |
| Registration.ReceiverChipIsVersion | backend/components/receiver_mqtt.py:213 | an ESP32-S3 device running firmware 1.0.0 has its dump analysed as chip "1.0.0", never as "esp32s3" |
| Registration.FixedUsesDeviceChip | backend/components/receiver_mqtt.py:187-214 | the corrected receiver differs from the written one only in the chip it analyses with, which is the device row's chip type, as in the subscriber |
| Store.Unassigned | backend/db_manager.py:370-376 | clearing clusters keeps every coredump and sets to NULL exactly those pointing at a cleared cluster |
| Store.UnassignedMore | backend/db_manager.py:370-376 | clearing one more cluster after a set of them is clearing the larger set |
| Store.UnassignedFree | backend/db_manager.py:370-376 | after clearing cluster c no coredump points at c |
| Store.ClusterStore.RawPathOf | backend/db_manager.py:343-349 | the raw dump path is found exactly for a known coredump |
| Store.ClusterStore.AddCluster | backend/db_manager.py:264-266 | a new name gets the next AUTOINCREMENT id; a name already taken breaks UNIQUE and is swallowed, answering None and changing nothing |
| Store.ClusterStore.UnassignCluster | backend/db_manager.py:370-376 | `unassign_cluster_from_coredumps` sets NULL exactly the coredumps of that cluster and nothing else |
| Store.ClusterStore.DeleteCluster | backend/db_manager.py:288-292 | the cluster row is removed when no coredump points at it; otherwise the foreign key refuses the delete and nothing changes |
| Store.ClusterStore.AssignCluster | backend/db_manager.py:352-358 | a known coredump is assigned to an existing cluster; an assignment to a missing cluster is refused by the foreign key and changes nothing |
| SyncLoad.GroupPairs | backend/cluster_sincronyzer.py:69-76 | the grouping of (coredump, cluster) pairs is a well-formed clustering: its key order lists each cluster once |
| SyncLoad.ExtractClusters | backend/cluster_sincronyzer.py:69-76 | the loop over the clustered coredumps builds exactly the grouping of the pairs |
| SyncLoad.GroupPairsComplete | backend/cluster_sincronyzer.py:73-74 | every listed coredump is a member of its listed cluster |
| SyncLoad.GroupPairsSound | backend/cluster_sincronyzer.py:73-74 | every member of every extracted cluster comes from a listed pair, so nothing is invented |
| SyncLoad.GroupPairsNoEmpty | backend/cluster_sincronyzer.py:72-76 | no extracted cluster is empty |
| SyncLoad.KeysOf | backend/cluster_sincronyzer.py:223-225 | each stored row is reduced to its key (skipped, raising, or base name and id), position by position |
| SyncLoad.PathMapRaises | backend/cluster_sincronyzer.py:222-228 | building the name-to-id map fails exactly when some row long enough to be read has a log path or id that cannot be converted |
| SyncLoad.LastNamed | backend/cluster_sincronyzer.py:223-225 | finds the last row carrying a given base name, or none when no row does |
| SyncLoad.PathMapLastWins | backend/cluster_sincronyzer.py:222-225 | when the map is built, a base name is in it exactly when some row carries it, and its id is the one of the last such row |
| SyncLoad.NothingTranslated | backend/cluster_sincronyzer.py:219 | the empty answer is a well-formed clustering |
| SyncLoad.TranslateUpTo | backend/cluster_sincronyzer.py:241-256 | translating any prefix of the CSV rows gives a well-formed clustering |
| SyncLoad.LoadAndTranslate | backend/cluster_sincronyzer.py:206-261 | the loader answers nothing for an empty store, a failed map or a missing file, and otherwise the translation of every CSV row |
| SyncLoad.TranslatedMembers | backend/cluster_sincronyzer.py:241-256 | a coredump is in a label's cluster exactly when some CSV row with two columns names that coredump's file and that label |
| SyncLoad.LastPlaced | backend/cluster_sincronyzer.py:248-256 | finds the last known CSV row naming a given coredump, or none |
| SyncLoad.TranslatedLabelOf | backend/cluster_sincronyzer.py:255-256 | a coredump has a label exactly when some row places it; its label is the one of the last row placing it, and it is a member of that label's cluster |
| SyncLoad.TranslatedNoEmpty | backend/cluster_sincronyzer.py:231-256 | no translated cluster is empty |
| SyncLoad.NullLogPathLosesAll | backend/cluster_sincronyzer.py:222-228 | one stored coredump whose log path is NULL makes the whole load answer nothing |
| SyncLoad.LivePathMapKeeps | backend/cluster_sincronyzer.py:222-225 | the corrected map, which skips rows it cannot read, keeps the last id per base name, and equals the map as written whenever that one is built |
| SyncPlan.ClaimsOf | backend/cluster_sincronyzer.py:99 | the reconciler's mapping read as claims keeps its keys and its insertion order |
| SyncPlan.PutClaim | backend/cluster_sincronyzer.py:125-128 | assigning a mapping entry replaces its value and appends the key to the order only when it is new, as a Python dict does |
| SyncPlan.MinOf | backend/cluster_sincronyzer.py:122 | the survivor is a member of the fusion and no larger than any other member |
| SyncPlan.FusionStep | backend/cluster_sincronyzer.py:115-136 | one fusion keeps the claims well formed |
| SyncPlan.PlanUpTo | backend/cluster_sincronyzer.py:115-136 | any prefix of the fusions keeps the claims well formed |
| SyncPlan.ProcessFusions | backend/cluster_sincronyzer.py:115-136 | the fusion loop computes the plan of all the fusions |
| SyncPlan.PlanInFusion | backend/cluster_sincronyzer.py:134 | an old id is marked as fused exactly when some fusion lists it |
| SyncPlan.PlanLabels | backend/cluster_sincronyzer.py:119-135 | a label is marked as coming from a fusion exactly when some fusion with contributors targets it |
| SyncPlan.PlanDoomed | backend/cluster_sincronyzer.py:123-136 | an old id is doomed exactly when some fusion lists it and it is not that fusion's minimum |
| SyncPlan.DoomedStep | backend/cluster_sincronyzer.py:123-136 | one fusion dooms exactly its non-survivors and forgets nothing already doomed |
| SyncPlan.LastSurvived | backend/cluster_sincronyzer.py:122-128 | finds the last fusion a given id survives, or none |
| SyncPlan.PlanClaims | backend/cluster_sincronyzer.py:125-128 | a survivor's entry is a fused claim to the label of the last fusion it survives; every other entry is the one that came in |
| SyncPlan.ClaimStep | backend/cluster_sincronyzer.py:125-128 | one fusion rewrites only its survivor's entry |
| SyncPlan.PlanOrder | backend/cluster_sincronyzer.py:125-128 | the mapping's order keeps the old order as a prefix and appends only survivors |
| SyncPlan.OrderStep | backend/cluster_sincronyzer.py:125-128 | one fusion extends the order only by its survivor |
| SyncPlan.RemovedExactly | backend/cluster_sincronyzer.py:139 | an old id is removed exactly when it disappeared and no fusion lists it, or some fusion lists it without keeping it |
| SyncPlan.CreatedExactly | backend/cluster_sincronyzer.py:141 | a label is created exactly when it is new and no fusion with contributors targets it |
| SyncPlan.BuildIdentity | backend/cluster_sincronyzer.py:168-186 | the identity loop starts from the created ids and lets every single-label entry of the mapping claim its label, in mapping order; split entries are skipped |
| SyncPlan.LastClaimant | backend/cluster_sincronyzer.py:169-181 | finds the last mapping entry claiming a given label, or none |
| SyncPlan.LastClaimantWins | backend/cluster_sincronyzer.py:181 | a label ends in the identity map exactly when it was created or some entry claims it; the last claiming entry's old id wins, and otherwise the created id stays |
| SyncPlan.StaleIdentity | backend/cluster_sincronyzer.py:115-181 | old clusters 1 and 2 fused into "a": the identity map gives "a" to cluster 2, which the same run deletes |
| SyncPlan.BuildLiveIdentity | backend/cluster_sincronyzer.py:168-186 | the corrected identity loop computes the map in which entries of removed clusters claim nothing |
| SyncPlan.LiveIdentityIsLive | backend/cluster_sincronyzer.py:168-186 | every label of the corrected map resolves to a created id or to the old id of an entry naming it, and never to a removed cluster |
| SyncPlan.LiveIdentityAgrees | backend/cluster_sincronyzer.py:168-186 | with nothing removed, the corrected map is the map as written |
| SyncPlan.LiveIdentityKeepsSurvivor | backend/cluster_sincronyzer.py:115-181 | on the same fusion the corrected map gives "a" to the survivor, cluster 1 |
| Creation.GeneratedName | backend/cluster_sincronyzer.py:79-95 | a member with a non-empty raw dump path names the cluster "Cluster_" and the stem of the path's base name; an unknown member or an empty path gives "Cluster_Inesperado_" and the time in whole seconds |
| Creation.GeneratedNameShape | backend/cluster_sincronyzer.py:89-92 | a name generated from a dump's path is "Cluster_" followed by a prefix of the path's base name, and so holds no '/' |
| Synchronizer.Reassigned | backend/cluster_sincronyzer.py:189-203 | reassignment touches no coredump outside the store |
| Synchronizer.RemoveClusters | backend/cluster_sincronyzer.py:144-151 | exactly the removal set leaves the store's names, its coredumps are unassigned, and nothing else changes |
| Synchronizer.CreateOne | backend/cluster_sincronyzer.py:155-165 | a label's cluster gets the name of its representative's file (or the empty-cluster name); the store accepts it with the next id unless the name is taken, in which case nothing changes and the label maps to None |
| Synchronizer.CreateClusters | backend/cluster_sincronyzer.py:153-165 | every label to create is handled once: fresh distinct ids for accepted names, None for refused ones, each named from its source, and no coredump changes cluster |
| Synchronizer.Reassign | backend/cluster_sincronyzer.py:188-203 | each coredump of the new result gets the cluster its label resolves to when that cluster exists; unmapped labels and refused assignments leave it as it was |
| Synchronizer.RemoveAndCreate | backend/cluster_sincronyzer.py:114-165 | the fusion plan, then removal of exactly the planned set, then creation of exactly the planned labels |
| Synchronizer.Apply | backend/cluster_sincronyzer.py:98-203 | the whole apply step as written: plan, removal, creation, the identity map as written, and the reassignment against it |
| Synchronizer.StaleIdentityOrphans | backend/cluster_sincronyzer.py:98-203 | coredumps 10 and 11 of fused clusters 1 and 2 both labelled "a": as written, 11 ends with no cluster at all |
| Synchronizer.ApplyLive | backend/cluster_sincronyzer.py:98-203 | the corrected apply step: every coredump whose label resolves is assigned that cluster, since every label it resolves names a cluster that exists |
| Synchronizer.LiveIdentityReunites | backend/cluster_sincronyzer.py:98-203 | with the corrected identity map, coredumps 10 and 11 both end in the survivor, cluster 1 |
| Clusters.EmptyClustering | backend/cluster_reconciler.py:57 | the empty `defaultdict(set)` is a well-formed clustering with no keys |
| Clusters.AddMember | backend/cluster_reconciler.py:68 | adding a name under a key adds the key if new (at the end of the order), adds the name to its set, and leaves every other key's set alone |
| Clusters.GroupRows | backend/cluster_reconciler.py:62-68 | grouping the CSV rows gives a well-formed clustering |
| Clusters.GroupRowsKeys | backend/cluster_reconciler.py:62-68 | a stripped label is a key exactly when some two-field row carries it |
| Clusters.GroupRowsMembers | backend/cluster_reconciler.py:62-68 | a stripped name is in a label's set exactly when some two-field row pairs the two |
| Clusters.GroupRowsNoEmpty | backend/cluster_reconciler.py:62-68 | no loaded cluster is empty |
| Clusters.LoadSkippingBadRows | backend/cluster_reconciler.py:55-75 | a missing file loads as None; otherwise rows of the wrong width are skipped and the rest grouped |
| Clusters.FirstBadRow | backend/jaccard.py:25 | finds the first row whose width is not two, and only that one |
| Clusters.FirstBadRowStep | backend/jaccard.py:25 | reading one more row either keeps the prefix free of bad rows or finds the first bad row |
| Clusters.LoadUnpackingRows | backend/jaccard.py:21-30 | a missing file loads as None; the first row of the wrong width ends the read with an unpacking error; otherwise all rows are grouped |
| Ordering.StrLessIsOrder | backend/cluster_reconciler.py:238-248 | Python's comparison of strings is a strict total order |
| Ordering.IntLessIsOrder | backend/cluster_reconciler.py:238 | the comparison of integers is a strict total order |
| Ordering.SortSorted | backend/cluster_reconciler.py:238-248 | `sorted` of distinct keys gives them in strictly ascending order and as a permutation |
| Ordering.SortedUnique | backend/cluster_reconciler.py:238-248 | two strictly sorted sequences with the same elements are equal |
| Ordering.SortOrderIndependent | backend/cluster_reconciler.py:238-248 | sorting two listings of the same distinct keys gives the same result, whatever the set's iteration order |
| Ordering.SortDescSorted | backend/cluster_reconciler.py:187-191 | the descending sort by a numeric key is non-increasing and a permutation |
| JaccardReconciler.BestScanFirstMax | backend/cluster_reconciler.py:111-119 | the scan of the new clusters ends on the first of those with maximal Jaccard index, and answers that index; with no new cluster it answers (None, -1.0) |
| JaccardReconciler.ScanStep | backend/cluster_reconciler.py:115-119 | one more new cluster keeps the scan on the first maximum so far |
| JaccardReconciler.ScanFirst | backend/cluster_reconciler.py:115-119 | the first new cluster always beats the initial -1.0 |
| JaccardReconciler.ScanNewMax | backend/cluster_reconciler.py:117-119 | a strictly larger index moves the scan to the new cluster |
| JaccardReconciler.ScanKeepsMax | backend/cluster_reconciler.py:117 | an index no larger leaves the scan's choice as it was |
| JaccardReconciler.FirstMaxKept | backend/cluster_reconciler.py:117 | a first maximum stays the first maximum when the next index is no larger |
| JaccardReconciler.BestMatch | backend/cluster_reconciler.py:112-119 | the inner loop computes the scan over every new cluster |
| JaccardReconciler.ReconcileClusters | backend/cluster_reconciler.py:97-140 | with no old clusters every new one is created; otherwise the new clusters no mapping points at are created and the old ones left unmapped have disappeared |
| JaccardReconciler.MappingUpToKeys | backend/cluster_reconciler.py:111-127 | after a prefix of the old clusters, the mapping holds exactly those of the prefix whose best match reaches the threshold, each with that match |
| JaccardReconciler.MappedIffBestReachesThreshold | backend/cluster_reconciler.py:111-140 | an old cluster is mapped exactly when its best Jaccard index reaches the threshold, to the first new cluster of maximal index; it has disappeared exactly when it is not mapped |
| JaccardReconciler.NoNewClusters | backend/cluster_reconciler.py:111-127 | with no new clusters an old cluster is only mapped, with no destination, when the threshold is at most -1 |
| MixedSpec.Put | backend/cluster_reconciler.py:228-233 | storing an entry replaces the value of its old id, and appends the id to the mapping's order only when it is new, as a Python dict does |
| MixedSpec.CandidatesUpTo | backend/cluster_reconciler.py:165-178 | every candidate recorded for an old cluster is a new cluster it shares at least one item with |
| MixedSpec.CandidatesUpToMetrics | backend/cluster_reconciler.py:168-178 | each candidate carries the intersection size, Jaccard index, overlap and both sizes of its pair |
| MixedSpec.Unclassified | backend/cluster_reconciler.py:237-238 | an old id is listed exactly when it is an old cluster that got no entry |
| MixedSpec.Unmatched | backend/cluster_reconciler.py:247-248 | a label is listed exactly when it is a new cluster that no entry points to |
| MixedSpec.AddContribution | backend/cluster_reconciler.py:256 | appending to the inverse index extends only that label's list, and adds the label to the order only when it is new |
| MixedSpec.Qualifying | backend/cluster_reconciler.py:261 | the merge candidates are exactly the listed contributions whose overlap reaches the merge minimum |
| MixedSpec.Ids | backend/cluster_reconciler.py:270 | the contributor ids are the ids of the merge candidates, in their order |
| MixedSpec.Round3 | backend/cluster_reconciler.py:271 | the recorded coverage is within 0.0005 of the exact coverage and a whole number of thousandths |
| MixedReconciler.MatrixRow | backend/cluster_reconciler.py:167-178 | the inner loop of the matrix computes the row of one old cluster: the new clusters it meets, in order, with their metrics |
| MixedReconciler.Matrix | backend/cluster_reconciler.py:164-178 | the intersection matrix has the row of every old cluster |
| MixedReconciler.CoverCandidate | backend/cluster_reconciler.py:211-219 | one turn of the covering loop: a label that adds items joins and raises the coverage, and the loop stops once the coverage is reached |
| MixedReconciler.GreedyCover | backend/cluster_reconciler.py:207-219 | the covering loop, with its early break, computes the coverage and the labels used that the split test compares |
| MixedReconciler.ClassifyCluster | backend/cluster_reconciler.py:186-233 | the tiers computed for one old cluster with candidates give its verdict |
| MixedReconciler.ClassifyAll | backend/cluster_reconciler.py:180-234 | the classification loop computes the entries of all old clusters, and its classified set is exactly the entries' ids |
| MixedReconciler.DestinationSet | backend/cluster_reconciler.py:241-246 | the destination set holds every single destination and every label of a split |
| MixedReconciler.AddRow | backend/cluster_reconciler.py:255-256 | one old cluster joins the list of each of its candidates |
| MixedReconciler.InverseIndex | backend/cluster_reconciler.py:253-256 | the inverse index is built from the matrix in old-cluster order |
| MixedReconciler.CoveredSet | backend/cluster_reconciler.py:265-267 | the coverage set is the part of the new cluster that the merge candidates hold |
| MixedReconciler.Retype | backend/cluster_reconciler.py:273-284 | the contributors of one fusion are retyped in place, one after the other |
| MixedReconciler.MergePass | backend/cluster_reconciler.py:258-284 | the merge pass over the inverse index computes the fusion records and the retyped mapping |
| MixedReconciler.ReconcileMixed | backend/cluster_reconciler.py:143-286 | the whole mixed reconciliation computes the mapping, the new labels, the disappeared ids and the fusions of the specification |
| MixedProperties.CandidatesExact | backend/cluster_reconciler.py:164-178 | an old cluster's row names, once each, exactly the new clusters it shares an item with |
| MixedProperties.BestIsFirstMax | backend/cluster_reconciler.py:186-192 | the best candidate ranks below no other on (overlap, Jaccard, intersection size), and every earlier candidate ranks strictly below it, as the stable descending sort puts it first |
| MixedProperties.BestMetrics | backend/cluster_reconciler.py:186-194 | the metrics the tiers read are the Jaccard index and the overlap of the old cluster with the best label |
| MixedProperties.VerdictTiers | backend/cluster_reconciler.py:196-233 | the first tier that holds decides: evolution, then growth, then a split of several labels, then drastic change, else no verdict; single destinations carry their metrics and a split carries none |
| MixedProperties.NoCandidateNoVerdict | backend/cluster_reconciler.py:181-184 | an old cluster meeting no new cluster gets no verdict |
| MixedProperties.VerdictNotMerged | backend/cluster_reconciler.py:196-233 | the classification never tags an entry as merged; only the merge pass does |
| MixedProperties.ClassifiedExactly | backend/cluster_reconciler.py:180-234 | an old cluster has an entry after classification exactly when it has a verdict, and the entry is that verdict |
| MixedProperties.DisappearedExactly | backend/cluster_reconciler.py:236-238 | the disappeared ids are the old clusters without a verdict, strictly ascending |
| MixedProperties.NewLabelsExactly | backend/cluster_reconciler.py:240-248 | the new labels are the new clusters no classified entry points to, as a single destination or in a split, strictly ascending |
| MixedProperties.SplitCovers | backend/cluster_reconciler.py:207-222 | a split names more than one label, each once, each a new cluster meeting the old one; together they reach the split coverage and no shorter prefix of them does; they come by non-increasing intersection with the old cluster, and each covers an item the ones before it did not |
| MixedMerge.InverseIds | backend/cluster_reconciler.py:253-256 | the list of a label in the inverse index holds exactly the old clusters meeting it, in old-cluster order |
| MixedMerge.MergeCandidatesExact | backend/cluster_reconciler.py:258-261 | the merge candidates of a label are, once each, exactly the old clusters meeting it with at least the merge overlap |
| MixedMerge.MergeCoverageIs | backend/cluster_reconciler.py:265-268 | the compared coverage is the union of the qualifying old clusters' items in the new cluster, over the new cluster's size |
| MixedFusions.MergeStepFusion | backend/cluster_reconciler.py:258-284 | one label appends one fusion record, for that label, exactly when the merge rule holds, and then retypes its contributors; otherwise nothing changes |
| MixedFusions.FusionsExactly | backend/cluster_reconciler.py:250-286 | the fusion records are exactly one per new cluster meeting the merge rule: at least two qualifying old clusters covering enough of it, listed once each, with the rounded coverage |
| MixedFusions.Retyped | backend/cluster_reconciler.py:273-284 | a fusion turns growth and drastic change into merged entries pointing at its label, creates a merged entry without metrics for an id with none, and leaves evolution, split and merged entries alone |
| MixedFusions.RetypedTwice | backend/cluster_reconciler.py:273-284 | a second fusion into the same label changes nothing more |
| MixedFusions.MergedMapping | backend/cluster_reconciler.py:272-284 | each old id's final entry is its classification retyped by the first fusion record listing it |
| MixedFusions.RetypingRules | backend/cluster_reconciler.py:272-284 | an id in no fusion keeps its classification; evolution and split are kept; an unclassified contributor becomes merged into the first fusion listing it, without metrics; growth and drastic change become merged into it, keeping their metrics |
| MixedFusions.DisappearedNotRevised | backend/cluster_reconciler.py:236-284 | a disappeared id stays in the disappeared list even when a fusion then gives it a merged entry, and has no entry otherwise |
| MixedFusions.IdenticalVerdict | backend/cluster_reconciler.py:186-201 | an old cluster equal to a new one that no other new cluster meets evolves into it with Jaccard index and overlap 1 |
| MixedFusions.RelabelledPartition | backend/cluster_reconciler.py:143-286 | reconciling a partition with a relabelled copy of itself maps every old cluster to its new name as an evolution, with nothing disappeared, no new label and no fusion |
| ReconcileDemo.DemoBefore | backend/cluster_reconciler.py:401-410 | the old demo CSV as a clustering: '0' holds coredumps 1, 2 and 4, '1' holds 3 and 5, '2' holds 8, and it is well formed |
| ReconcileDemo.DemoAfter | backend/cluster_reconciler.py:411-420 | the new demo CSV as a clustering: '1' holds coredumps 1, 2, 4 and 7, '0' holds 3 and 5, '2' holds 6 and 9, and it is well formed |
| ReconcileDemo.DemoMeets | backend/cluster_reconciler.py:401-420 | in the demo, old '0' meets only new '1', old '1' meets only new '0', and old '2' meets no new cluster |
| ReconcileDemo.DemoMetrics | backend/cluster_reconciler.py:164-178 | on the demo, old '0' against new '1' has intersection 3, Jaccard 0.75, overlap 1 and coverage 3 of 4, and old '1' against new '0' has Jaccard, overlap and coverage all 1 |
| ReconcileDemo.DemoVerdicts | backend/cluster_reconciler.py:180-234 | the mixed classification loop calls old '0' an evolution into '1' (Jaccard 0.75, overlap 1) and old '1' an evolution into '0' (both 1), and gives old '2' no verdict |
| ReconcileDemo.DemoMixed | backend/cluster_reconciler.py:458-460 | the mixed reconciliation that `main` runs on the demo maps old '0' to '1' and old '1' to '0' as evolutions, reports only old '2' as disappeared and only '2' as a new label |
| ReconcileDemo.DemoNoFusion | backend/cluster_reconciler.py:250-271 | no new demo cluster is met by two qualifying old clusters, so the mixed reconciliation records no fusion |
| ReconcileDemo.DemoMatchOf0 | backend/cluster_reconciler.py:111-127 | the best-match scan of the Jaccard reconciler sends old '0' to '1' with similarity 0.75, which passes the 0.7 threshold |
| ReconcileDemo.DemoMatchOf1 | backend/cluster_reconciler.py:111-127 | the best-match scan sends old '1' to '0' with similarity 1 |
| ReconcileDemo.DemoMatchOf2 | backend/cluster_reconciler.py:111-127 | old '2' shares no coredump with any new cluster, so the scan finds no match above the threshold |
| ReconcileDemo.DemoDestinations | backend/cluster_reconciler.py:130-135 | the matched new clusters of the demo are exactly '1' and '0' |
| ReconcileDemo.DemoJaccard | backend/cluster_reconciler.py:452-454 | the Jaccard reconciliation that `main` runs on the demo maps old '0' to '1' (0.75) and old '1' to '0' (1), and reports only '2' as new and only old '2' as disappeared |
| Clusterizer.CheckTrigger | backend/coredump_clusterizer.py:83-133 | no run with fewer than two coredumps or none unclustered; a run with at least five unclustered; otherwise a run exactly when more than 300 seconds passed since the last run, counted from 0 when the state file is missing or does not parse as a number |
| Clusterizer.TriggerMonotone | backend/coredump_clusterizer.py:94-133 | more unclustered coredumps or a later clock never turn a firing trigger off |
| Clusterizer.Copyable | backend/coredump_clusterizer.py:156-170 | a record is copied exactly when it has a column 5 naming an existing file |
| Clusterizer.CopyableStep | backend/coredump_clusterizer.py:157-174 | one more record adds one copy exactly when its own file is copied |
| Clusterizer.SnapshotStep | backend/coredump_clusterizer.py:172-173 | one more copied record puts its file in the snapshot under its base name |
| Clusterizer.SnapshotNames | backend/coredump_clusterizer.py:172-173 | the snapshot's file names are exactly the base names of the copied records |
| Clusterizer.SnapshotSize | backend/coredump_clusterizer.py:156-177 | the snapshot never holds more files than the count of copies |
| Clusterizer.SameNameCountsTwice | backend/coredump_clusterizer.py:172-174 | two copied records with the same base name count as two copies but leave one file |
| Clusterizer.PrepareSnapshotDirectory | backend/coredump_clusterizer.py:136-177 | the snapshot loop answers the number of copies and leaves the directory holding the copied files under their base names |
| Clusterizer.RoundPaths | backend/coredump_clusterizer.py:274-310 | the effects of one round, path by path: database check, trigger, snapshot, the two-copy minimum, the container, the results, and the cleanup in every triggered path |
| Clusterizer.RoundRunsWhenReady | backend/coredump_clusterizer.py:287-303 | the container runs exactly when the trigger fires, the snapshot does not raise and holds at least two copies |
| Clusterizer.RoundReconcilesOnSuccess | backend/coredump_clusterizer.py:252-261 | results are reconciled exactly when the container ran, succeeded and left the CSV, always from the default CSV path |
| Clusterizer.RoundStampsAfterReconcile | backend/coredump_clusterizer.py:252-261 | the state is written only right after a reconciliation, exactly when neither it nor the write raises |
| Clusterizer.RoundCleansUp | backend/coredump_clusterizer.py:287-310 | a triggered round always ends with the one cleanup that keeps the CSV; an untriggered round only checks the database |
| LegacyClustering.CheckTrigger | backend/coredump_clustering.py:43-77 | the same decision as the current trigger, paired with the unclustered count when it fires and 0 when it does not |
| LegacyClustering.PrepareSnapshotDirectory | backend/coredump_clustering.py:79-118 | with no records the pair (None, None); otherwise the name-to-id map of the scan, or an exception once a record lacks column 5 or holds NULL there |
| LegacyClustering.ScanStaysRaised | backend/coredump_clustering.py:98-115 | once a record raised, the whole scan has raised |
| LegacyClustering.ScanRaises | backend/coredump_clustering.py:98-115 | the scan raises exactly when some record lacks column 5 or holds NULL there |
| LegacyClustering.LastIdWins | backend/coredump_clustering.py:107-115 | the map's names are those of the copied records, and each maps to the id of the last copied record with that name |
| LegacyClustering.NamesStep | backend/coredump_clustering.py:107-115 | one more record adds its own name exactly when its file is copied |
| LegacyClustering.IdsStep | backend/coredump_clustering.py:111-115 | a record that is last with its name after one more record was already last before, under another name than the new one |
| LegacyClustering.RoundRunsDocker | backend/coredump_clustering.py:204-215 | the container runs exactly when the trigger fires and the snapshot neither raises nor is an empty map |
| LegacyClustering.EmptyStoreStillRuns | backend/coredump_clustering.py:90-93 | an empty store at the snapshot answers (None, None), which is truthy: the container still runs |
| LegacyClustering.NothingCopiedStops | backend/coredump_clustering.py:103-105 | records whose files are all missing give an empty map, which stops the round before the container |
| LegacyClustering.RoundReconcilesOnSuccess | backend/coredump_clustering.py:172-219 | results are reconciled only when the container answered a path and the CSV exists, and the state is written only right after |
| LegacyClustering.RoundCleansUp | backend/coredump_clustering.py:186-224 | a triggered round always ends with the cleanup that removes the CSV; an untriggered one only checks the database |
| Dashboard.InCluster | backend/components/analysis_dashboard.py:54-57 | the coredumps listed for a cluster are exactly the records whose column 3 is its id, in order |
| Dashboard.Clustered | backend/components/analysis_dashboard.py:26-29 | a record is listed exactly when it has a cluster id; no more are listed than there are records |
| Dashboard.CoredumpsSummary | backend/components/analysis_dashboard.py:18-37 | the summary holds the three list lengths, their difference, and the per-cluster counts of the records |
| Dashboard.CountsAgree | backend/components/analysis_dashboard.py:25-29 | each cluster id seen is counted once, as the number of records in that cluster, and an id not counted has no record |
| Dashboard.CountsSum | backend/components/analysis_dashboard.py:25-29 | the per-cluster counts add up to the number of records that have a cluster |
| Dashboard.GetClusterDetails | backend/components/analysis_dashboard.py:39-64 | None exactly when no cluster row has the id; otherwise the name of the first such row and exactly the records of that cluster, with their count |
| Dashboard.DetailsMatchSummary | backend/components/analysis_dashboard.py:18-64 | a cluster's details count what the summary counts for it |
| Dashboard.GetCoredumpDetails | backend/components/analysis_dashboard.py:66-82 | None exactly when no record has the id; otherwise the dict of the first such record, columns 0 to 6 in order |
| Dashboard.DetailsMislabelled | backend/components/analysis_dashboard.py:72-80 | on a full coredump row the dict files the raw dump path under "received_at", the log path under "raw_path" and the reception time under "report_path" |
| Dashboard.DetailsByColumnRoundTrip | backend/components/analysis_dashboard.py:72-80 | read by column name, a full row's details give the row back and each key holds the value it names |

Notes on how the rows map onto the source:

- `backend/jaccard.py` repeats the Jaccard-only reconciler of `backend/cluster_reconciler.py`. Its `calcular_jaccard` (32-50) and `reconciliar_clusters` (52-104) compute the same results as the reconciler's, and `Similarity` and `JaccardReconciler` model both copies. Its CSV loader at 21-30 differs from the reconciler's: it unpacks every row and raises on a row of the wrong size. `Clusters.LoadUnpackingRows` models that loader.
- The subscriber's `maybe_decode_base64` (`backend/subscriber.py:233-269`) applies the receiver's guards in the same order, so `Base64.MaybeDecode` models both.
- The subscriber's `on_message` (`backend/subscriber.py:280-323`) routes topics exactly as the receiver's `_on_message` does, so `Ingest.Route` models both. The only difference is what is logged.

## Left out

- Threads and locks: `threading.Lock`, the dispatch threads and the cleanup loops of both assemblers, the clusterizer thread, and the FreeRTOS queue loop of `app_main`. Each assembler call is one atomic step of the model.
- Networking: the MQTT client and its connection callbacks, Wi-Fi, and the fault-injection script. Publishing appears only as the set of publishes that fail.
- External tools:
  - The `docker`/`subprocess` runs, including the DAMICORE command of `run_damicore_clustering_docker` (`backend/coredump_clusterizer.py:180-240`, `backend/coredump_clustering.py:120-170`). Their outcome is a parameter of each round.
  - `esp-coredump`'s output is a given string.
- File system: file copies, deletions and writes, and the atomic rename of the state file. Whether a path exists, and whether a write succeeds, are inputs.
- The clock: `time.time()` and the ZoneInfo timestamp formatting. Times, and the formatted timestamp in generated names, are arguments. Synchronizer.CreateClusters takes one time `now` for the whole round, so every empty cluster created in a round carries the same timestamp. The source reads `time.time()` again for each label (`backend/cluster_sincronyzer.py:158`), so two of its names can carry different seconds.
- SQLite: the store is an in-memory class over positional rows. It keeps the column order of `backend/db_manager.py` and only the operations the core calls. The `db_manager` functions the core never calls are not modelled.
- Parsing: JSON and CSV are given as parsed values (an optional integer "parts", rows of strings).
- Regular expressions and SHA-1 in report naming: functions of the text, given as arguments.
- Base64: only the RFC 4648 section 4 semantics are modelled, not the mbedtls or Python library code. Of the mbedtls error codes only the too-small-buffer case is modelled, and the buffer is proved large enough.
- Floating point: Jaccard similarity, the overlap coefficient and coverage are exact reals.
- MixedSpec.Round3: models `round(x, 3)` on exact reals with ties to even. It does not model the binary floating-point value Python actually rounds.
- processar_reconciliacao: the summary dictionary it builds and logs (`backend/cluster_sincronyzer.py:264-331`) is not modelled. The rounds model only the call, before the timestamp is written.
- Logging, printing and the `exibir_resultados` functions.
- The demo's file writing and result display, the entry points and the interactive firmware registration script. The clusterings that `criar_arquivos_de_exemplo` writes are modelled as values (ReconcileDemo.DemoBefore and DemoAfter), and both reconcilers that `main` runs on them are evaluated by lemmas.
- The GUI (Textual screens and matplotlib plotting), and the crash-generating firmware code.
- Python set iteration order: where the source iterates a set, the model takes any order (a set, or a chosen element). Where the source sorts, the model sorts.
- Text.ParseInt: reads an optional ASCII sign and ASCII decimal digits only. Python's `int()` also accepts '_' between digits ("1_0") and non-ASCII decimal digits ("٣"); the model reads those as errors. This affects part indices in `Ingest.Route`, text coredump ids in `SyncLoad` and text firmware ids in `Registration`.
- Ingest.SafeMac: upper-cases ASCII letters only. Python's `.upper()` also upper-cases other letters ("é" becomes "É"), so the model's "no lower-case letter" holds for ASCII letters only.
- Text.Basename: is `os.path.basename` exactly. Where the source uses `Path.name` or `Path.stem`, pathlib's normalisation is not modelled: on a path ending in '/' or "/." (`Path("dump/.").name` is "dump"), the model gives "" or ".".
- Clusterizer.CheckTrigger, LegacyClustering.CheckTrigger: the state file counts as time 0 only when it is missing or does not parse as a number, which are the two errors the source catches. An existing state file that cannot be read (PermissionError, IsADirectoryError) raises out of `check_trigger` in the source; the model's optional timestamp has no such case.
- Device.SendsWholeDump: it chains the firmware upload to the published parts, but not on to the receiver's decoding. A last chunk of 1 to 3 bytes encodes to 4 characters, below the receiver's 8-character Base64 minimum, so that part is stored undecoded. The firmware-to-backend chain is therefore not proved end to end.

## Findings

| source | as written | input that shows it | evidently intended | confidence | as-written member | corrected member |
|---|---|---|---|---|---|---|
| main/coredump_uploader/coredump_uploader.c:61 | the chunk count is `(size + chunk - 1) / chunk` in `size_t`, and the sum can wrap | a 10-byte image with a requested chunk size of SIZE_MAX gives zero chunks, with and without Base64 | the ceiling of size / chunk, so that the chunks tile the image | not executed | UploadInfo.HugeChunkWraps | UploadInfo.LayoutFixedTiles |
| backend/components/receiver_mqtt.py:213 | `chip_type=fw[2]` passes the firmware row's version column as the chip | an ESP32-S3 device running firmware 1.0.0 is analysed for chip "1.0.0" | the device's chip type, as `backend/subscriber.py` passes it | not executed | Registration.ReceiverChipIsVersion | Registration.FixedUsesDeviceChip |
| backend/cluster_sincronyzer.py:168-181 | the identity map lets every single-label mapping entry claim its label, even an entry whose old cluster the removal step has just deleted | old clusters 1 (coredump 10) and 2 (coredump 11) fuse into label "a": cluster 2 is deleted but claims "a" last, and coredump 11 ends with no cluster | a deleted cluster claims nothing, so that "a" resolves to the survivor, cluster 1 | not executed | Synchronizer.StaleIdentityOrphans | Synchronizer.LiveIdentityReunites |
| backend/cluster_sincronyzer.py:222-228 | `Path(row[5])` raises on a NULL log path, and the handler drops the whole path map | one stored coredump whose report was never generated makes the load return nothing for every coredump | rows without a log path are skipped | not executed | SyncLoad.NullLogPathLosesAll | SyncLoad.LivePathMapKeeps |
| backend/components/analysis_dashboard.py:72-80 | columns 4, 5 and 6 are filed under "received_at", "raw_path" and "report_path" | a full coredumps row (raw dump path in column 4, log path in 5, reception time in 6) shows its raw path as "received_at" | each key takes the column of the same name | not executed | Dashboard.DetailsMislabelled | Dashboard.DetailsByColumnRoundTrip |
