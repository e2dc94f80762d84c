# A verified model of the DDS / IEC 61850 gateway

The gateway carries requests from a client to a server over a DDS topic, answers them on a
second topic with results that a protocol client behind the gateway has put into a shared
table, and logs how long that took. This project models its logic in Dafny and proves what
it keeps, what its parts agree on, and where they part.

| modules | what they model |
|---|---|
| `Cdr`, `MessengerTypes`, `Streams`, `MessengerCodec` | the byte format of `Messenger::Message`, `StringArray` and `BinaryContentsType`, seen five ways: size predictor, writer, reader, skipper, lazy field reader |
| `FieldAccess`, `FieldUpdate` | field access by name, in memory and from serialized bytes; assignment and comparison by name |
| `DeliveryAudit`, `ArrivalTimes`, `Callbacks`, `ServerListener`, `ClientListener` | the two listeners: duplicate detection, the audit loop, the arrival queue, round-trip times, the request table |
| `Xml`, `XmlBuilder`, `StringTables` | documents, the search, the builders that grow a tree in place, the fixed tables of C strings |
| `DataWriter`, `Sender`, `Responder` | the send loop and the service loop, and the data writer both retry while it times out |
| `Pipeline`, `PipelineTimes`, `PipelineResults`, `PipelineRequests`, `PipelineLosses`, `PipelineRuns`, `PipelineComponents` | all of it as one step machine with lossy ordered channels, what holds in every reachable state, and runs on which results are lost or times are wrong |
| `RowReads` | the loop that copies result rows, with batches arriving between any two of its memory accesses |
| `Common` | options, C strings, subsequences |

How it is put together:

* Code that mutates is a class or a method with loops, and is proved equal to a function of the
  old state; the functions are what the lemmas speak about. `Streams.Serializer` is the stream
  (one buffer, a read and a write position, a flag that a failed operation clears), with only
  the primitives the generated code uses.
* A value's layout is a list of items, words and runs of bytes, in front of what follows it.
  Size prediction, writing, reading and skipping are each related to that list once, so
  alignment, start offset, byte order and capacity are treated in one place.
* A message is generic in its text: bytes on the wire, and in the rest of the gateway the
  document those bytes parse to. Printing and parsing a document is taken to give the document
  back, with whitespace text nodes inserted anywhere among element siblings and empty text
  nodes possibly gone (`Xml.Padded`).
* A node pointer of the XML library is a node with its following siblings, so pointers are
  values of type `Forest`, and the null pointer is `Nil`.
* The step machine accepts every sequence of actions; an action that is not possible changes
  nothing. Reading the result table and emptying it are separate steps, and a batch of results
  can arrive between any two steps.

What the proofs found:

* The skipper cuts a length to 16 bits. Lazy field access is right for all messages of a text
  length exactly when the length and its terminator stay below 65536 (`FieldAccess.LazyRightIff`);
  for longer texts `FieldAccess.Misread` gives a message whose count is read out of its text.
  Octet sequences of 65536 to 100000 bytes are legal and skipped short
  (`FieldAccess.SkipContentsAt`).
* An inter-arrival time is measured from the previous arrival exactly when the samples with
  counts 0 and 1 both got through; if one was lost every interval is zero, and if both were
  lost it is computed from the front of an empty queue (`PipelineTimes.IntervalsInPipeline`,
  `PipelineLosses.IntervalValues`). Both happen: `PipelineLosses.GapLoggedAsZero` and
  `PipelineLosses.IntervalUndefined` are runs of a few steps, for any arrival times.
* A result batch is published exactly when the first thing that happens to the table after its
  delivery is a read (`PipelineResults.Publication`). One delivered between the read and the
  clearing of the table is never published, whatever follows (`PipelineLosses.DeliveredInBetween`),
  and any batch can meet that fate (`PipelineLosses.BatchLost`); `PipelineLosses.PublishableIff`
  says exactly which delivered batches can still be published.
* All that holds when the table is read in one step. When a batch arrives while rows are being
  copied, a response can mix batches: place for place it lists the item of one of the batches,
  never of an earlier one than before (`RowReads.ListedIff`); `RowReads.Mixed` mixes any two
  batches that differ in their first two rows.
* A round-trip time is right exactly when the sending time's seconds fit 32 signed bits
  (`ArrivalTimes.RttExactIff`); `PipelineRuns.RoundTripAt` is a run on either side of that bound.
* The client sends 1000000 requests while the audits expect 40, so the server's audit fails on
  every run in which more than 40 arrive (`PipelineRequests.AuditOfLongRun`). On either side the
  audit passes exactly when no bad event came and, in reliable mode, 40 samples arrived and the
  last is number 39, in unreliable mode 10 to 40 arrived (`PipelineRequests.AuditInPipeline`,
  `PipelineRequests.ClientAuditInPipeline`). So when nothing is lost at all it passes for 40
  requests and fails for every larger number (`PipelineRuns.AuditsWithoutLoss`). The report printed
  for counts below the expected one speaks of negative counts, and negative is what they are:
  the loop never overtakes another element (`DeliveryAudit.ScanNegative`).
* Field comparison by name fails on the timestamp although it is a listed field, and the
  serialized lookup succeeds on two names, the empty one and `time_stamp.`, on which the
  in-memory lookup fails (`FieldUpdate.CompareIff`, `FieldAccess.LazyAgrees`).

`dafny verify dfyconfig.toml` checks the whole project.

## Model

| member | source | states |
|---|---|---|
| Cdr.Pad | MessengerTypeSupportImpl.cpp:204-206 | padding is the fewest bytes that bring a word to a multiple of four from the start of the stream, and none in unaligned mode |
| Cdr.ByteOrders | MessengerTypeSupportImpl.cpp:214-228 | the bytes of a word are, in big-endian order, its digits to the base 256 and no others, and in little-endian order the same bytes reversed |
| Cdr.WordRoundTrip | MessengerTypeSupportImpl.cpp:214-228 | a 32-bit word is recovered from its four bytes in either byte order |
| Cdr.MeasureExact | MessengerTypeSupportImpl.cpp:384-397 | whatever the start extent, the growth of size is the unaligned length and the growth of size plus padding is the aligned length of the items |
| Cdr.MeasureExactFor | MessengerTypeSupportImpl.cpp:199-212 | the same for one byte order and start offset |
| Cdr.PutAfterFailure | MessengerTypeSupportImpl.cpp:66-70 | a stream that has failed ignores every later write |
| Cdr.PutExact | MessengerTypeSupportImpl.cpp:399-407 | a write succeeds iff the whole encoding fits; then exactly the encoding is appended, otherwise only a proper prefix of it, which fits the capacity |
| Cdr.PutSucceedsIff | MessengerTypeSupportImpl.cpp:384-407 | a write succeeds iff the room left is at least what the size predictor announces, wherever among the items it would run out |
| Cdr.PutStands | MessengerTypeSupportImpl.cpp:399-407 | after a successful write the items stand, aligned, between the old and the new end of the stream |
| MessengerTypes.TextBytes | MessengerTypeSupportImpl.cpp:62-72 | a string on the wire is zeros up to a multiple of four, its length with the terminator, its bytes and a zero byte |
| MessengerTypes.MessageBytes | MessengerTypeSupportImpl.cpp:399-407 | byte for byte, a message is text, count, seconds, nanoseconds and subject in this order, padded in front of the text's length and of the count only |
| MessengerTypes.TextsBytes | MessengerTypeSupportImpl.cpp:62-72 | a string array is its strings one after another, without a length of its own |
| MessengerTypes.ContentsBytes | MessengerTypeSupportImpl.cpp:135-147 | an octet sequence is its length and its octets |
| MessengerTypes.TextAt | MessengerTypeSupportImpl.cpp:74-84 | a string that was written is read back without its terminator, and the reader stops where it ends |
| MessengerTypes.TimeAt | MessengerTypeSupportImpl.cpp:222-228 | both words of a timestamp are read, or skipped, exactly where they were written |
| MessengerTypes.LengthOfMessage | MessengerTypeSupportImpl.cpp:384-397 | the length of a message at any offset, and where what follows it starts |
| MessengerTypes.MessageAt | MessengerTypeSupportImpl.cpp:409-417 | a message standing anywhere in the data is read back whole and the reader stops at its end |
| MessengerTypes.StreamAt | MessengerTypeSupportImpl.cpp:409-417 | so is any list of messages standing back to back |
| MessengerTypes.StreamRoundTrip | MessengerTypeSupportImpl.cpp:399-417 | writing any list of messages and reading it gives the list back and ends exactly at the writer's end, though each trailing subject byte misaligns the next message |
| MessengerTypes.ArrayRoundTrip | MessengerTypeSupportImpl.cpp:62-84 | a string array of 100 strings is read back whole |
| MessengerTypes.ContentsRoundTrip | MessengerTypeSupportImpl.cpp:135-165 | an octet sequence of up to 100000 bytes is read back whole |
| MessengerTypes.ContentsReadIff | MessengerTypeSupportImpl.cpp:149-165 | the reader returns a legal octet sequence if and only if that sequence stands there |
| MessengerTypes.MessageLocal | MessengerTypeSupportImpl.cpp:409-417 | reading depends only on the bytes up to where it stops: cut before, it fails; cut after, nothing changes |
| MessengerTypes.MessagePrefixFails | MessengerTypeSupportImpl.cpp:409-417 | the reader fails on every strict prefix of a message |
| MessengerTypes.TextsPrefixFails | MessengerTypeSupportImpl.cpp:74-84 | the array reader fails on every strict prefix, in whichever string the data ends |
| MessengerTypes.ContentsPrefixFails | MessengerTypeSupportImpl.cpp:149-165 | the octet sequence reader fails on every strict prefix |
| FieldAccess.SkipCountedAt | MessengerTypeSupportImpl.cpp:556-563 | skipping a text ends where reading it ends, less a whole number of 65536 bytes |
| FieldAccess.LazyTailAt | MessengerTypeSupportImpl.cpp:564-597 | from the end of the text on, the lazy lookup finds the in-memory value for every field name, or fails on the same names but two |
| FieldAccess.LazyAgrees | MessengerTypeSupportImpl.cpp:528-597 | for every text whose length with the terminator is below 65536, every offset, byte order, mode and field name, the lazy lookup agrees with the in-memory lookup, except that it returns zero on exactly two names, the empty one and `time_stamp.`; for the text itself no bound is needed |
| FieldAccess.LazyRightIff | MessengerTypeSupportImpl.cpp:556-576 | the lazy lookup is right for all messages of a given text length if and only if the length with its terminator is below 65536 |
| FieldAccess.Misread | MessengerTypeSupportImpl.cpp:556-570 | for every longer text length there is a message whose count is read wrongly |
| FieldAccess.SkipTailShifted | MessengerTypeSupportImpl.cpp:571-592 | the skips behind the text never fail on a shift by multiples of four and end shifted by as much |
| FieldAccess.SkipMessageAt | MessengerTypeSupportImpl.cpp:547-597 | skipping a message never fails on its bytes and ends where reading ends less the whole multiples of 65536 in the text's length, so there exactly when that is below 65536 |
| FieldAccess.SkipThenRead | MessengerTypeSupportImpl.cpp:694-699 | skipping n messages and reading yields message n |
| FieldAccess.SkipTextsIff | MessengerTypeSupportImpl.cpp:93-102 | the array skipper is level with the array reader after every iteration if and only if every string with its terminator is shorter than 65536 bytes |
| FieldAccess.SkipContentsAt | MessengerTypeSupportImpl.cpp:174-180 | skipping an octet sequence ends where reading ends exactly when it has fewer than 65536 octets, otherwise short by a multiple of 65536 |
| FieldAccess.FieldValues | MessengerTypeSupportImpl.cpp:528-545 | the in-memory lookup gives text, count, seconds, nanoseconds and subject under their five names and fails on every other name |
| FieldUpdate.Holder.Assign | MessengerTypeSupportImpl.cpp:641-666 | assignment by name sets exactly the named field, text, count, timestamp or subject, to that of the source and no other; an unknown name on either side changes nothing |
| FieldUpdate.RawFieldsComplete | MessengerTypeSupportImpl.cpp:618-639 | raw access gives each of the four fields under its name, fails on every other name, and messages agreeing on the four are equal |
| FieldUpdate.CompareIff | MessengerTypeSupportImpl.cpp:669-684 | comparison by name is equality of the looked-up values; of the listed names it fails exactly on the timestamp |
| MessengerCodec.FindSizeTime | MessengerTypeSupportImpl.cpp:199-212 | the predictor for a timestamp is exact in both modes |
| MessengerCodec.FindSizeMessage | MessengerTypeSupportImpl.cpp:384-397 | the predictor for a message is exact in both modes at any start extent |
| MessengerCodec.FindSizeMessages | MessengerTypeSupportImpl.cpp:384-397 | called for messages back to back it is exact for the whole list |
| MessengerCodec.FindSizeTexts | MessengerTypeSupportImpl.cpp:51-60 | the predictor for a string array is exact |
| MessengerCodec.FindSizeContents | MessengerTypeSupportImpl.cpp:123-133 | the predictor for an octet sequence is exact, empty or not |
| MessengerCodec.WriteTime | MessengerTypeSupportImpl.cpp:214-220 | writes the two words, the second only if the first fitted |
| MessengerCodec.WriteMessage | MessengerTypeSupportImpl.cpp:399-407 | appends the layout of the message and returns true iff the room left is at least what is predicted |
| MessengerCodec.WriteTexts | MessengerTypeSupportImpl.cpp:62-72 | the 100-step loop appends the layout of the array and returns true iff the room left is at least what is predicted, wherever it runs out |
| MessengerCodec.WriteContents | MessengerTypeSupportImpl.cpp:135-147 | appends the length and, unless it is zero, the octets, and returns true iff there was room |
| MessengerCodec.ReadTime | MessengerTypeSupportImpl.cpp:222-228 | the reading chain is the reader function of the data, position and result |
| MessengerCodec.ReadMessage | MessengerTypeSupportImpl.cpp:409-417 | the reading chain of a message is the reader function, on success and at whichever part it fails |
| MessengerCodec.ReadTexts | MessengerTypeSupportImpl.cpp:74-84 | the 100-step loop is the array reader, including a failure in the middle |
| MessengerCodec.ReadContents | MessengerTypeSupportImpl.cpp:149-165 | refuses a length beyond the bound, otherwise reads the octets |
| MessengerCodec.GetTimeValue | MessengerTypeSupportImpl.cpp:262-290 | the lazy lookup inside a timestamp is its function |
| MessengerCodec.GetTailValue | MessengerTypeSupportImpl.cpp:564-596 | the lazy lookup behind the text is its function |
| MessengerCodec.GetValue | MessengerTypeSupportImpl.cpp:547-597 | the lazy lookup of any field is its function, in value, failure and final position |
| MessengerCodec.SkipOverCounted | MessengerTypeSupportImpl.cpp:174-180 | reads a length and passes over that many bytes, cut to 16 bits |
| MessengerCodec.SkipOverTexts | MessengerTypeSupportImpl.cpp:93-102 | the skipping loop is its function, including a failure in the middle |
| MessengerCodec.SkipOverMessage | MessengerTypeSupportImpl.cpp:694-699 | skipping a message is the lazy lookup with no field wanted |
| DeliveryAudit.InsertAscending | DataReaderListener.cpp:85-88 | insertion keeps the set of counts in order |
| DeliveryAudit.AddGap | DataReaderListener.cpp:245-258 | reporting a gap keeps the reported ranges ordered, with a received count between any two, and exactly the counts missing so far |
| DeliveryAudit.ScanNegative | DataReaderListener.cpp:260-269 | elements below the expected count occur only at the start, and are negative |
| DeliveryAudit.ScanNext | DataReaderListener.cpp:242-274 | passing an element keeps what the loop knows, in both modes; the expected count never overtakes an element |
| DeliveryAudit.ScanEnd | DataReaderListener.cpp:276-285 | when the loop ends, the two final tests decide exactly the meaning of the audit |
| DeliveryAudit.Audit | DataReaderListener.cpp:237-288 | passes iff, in reliable mode, the counts are exactly 0 to N-1 and, in unreliable mode, none is negative and their number is between N/4 and N; the ranges reported missing are increasing, one for each gap, and together exactly the absent counts from 0 up to the one where the loop stops, which is N if N-1 came or N is 0, otherwise the least count received that is N or more, otherwise just behind the greatest non-negative one; negative counts are reported in front of them and left-over or too few counts behind; it terminates |
| DeliveryAudit.ReportKinds | DataReaderListener.cpp:260-285 | of the other reports, too high counts are reported iff, in reliable mode, a count is N or more and, in unreliable mode, more than N counts are not negative; too few, with their number and N, iff that is not reported and the number is below N, and in unreliable mode below N/4; negative ones at most once, iff there are any, in the plural iff there are several |
| DeliveryAudit.ReachedUnique | DataReaderListener.cpp:242-285 | where the loop stops is determined by the set of counts and N, so the reported ranges are too |
| ArrivalTimes.MillisBetweenExact | DataReaderListener.cpp:142-143 | the computed interval is the exact difference in nanoseconds cut to milliseconds of 1000000 nanoseconds, towards zero |
| ArrivalTimes.ClockReading | RespDataReaderListener.cpp:87-91 | a reading is whole seconds and fewer than 1000000000 nanoseconds |
| ArrivalTimes.QueueLaw | DataReaderListener.cpp:137-143 | after any run the queue holds the last q arrival times in order, q being the number of samples with count at most 1 |
| ArrivalTimes.IntervalLaw | DataReaderListener.cpp:137-144 | each logged interval is measured from q-1 samples back, and is undefined when q is 0 |
| ArrivalTimes.LoggedAtExactly | DataReaderListener.cpp:137-144 | the places logged are exactly those of the samples with count above 1, in order, and the queue grows for all others |
| ArrivalTimes.LogLaw | DataReaderListener.cpp:137-144 | the whole log of any run: one row for each sample with count above 1, in order, under its count and measured from q-1 samples back there; the others leave it as it was |
| ArrivalTimes.TrueIntervalIff | RespDataReaderListener.cpp:95-101 | with distinct arrival times it is measured from the previous arrival iff q is 2 |
| ArrivalTimes.DriftBound | RespDataReaderListener.cpp:95-101 | with q = 2 the intervals of n samples add up to at most the elapsed milliseconds and fall short of the elapsed time by less than n milliseconds |
| ArrivalTimes.RttExactIff | RespDataReaderListener.cpp:91-92 | the round-trip time is the whole milliseconds since sending iff the sending time's seconds fit 32 signed bits |
| ArrivalTimes.RttOfStamp | RespDataReaderListener.cpp:91-92 | for any stamp the logged time is the difference in nanoseconds, negative or not, cut to milliseconds towards zero |
| ArrivalTimes.RttFits64 | RespDataReaderListener.cpp:91-92 | no intermediate value leaves 64 signed bits, whatever stamp arrives |
| Callbacks.CollectsPush | DataReaderListener.cpp:85-88 | the set of counts after one more sample, and its size when nothing repeated |
| Callbacks.SamplesAll | DataReaderListener.cpp:60-81 | the samples of a run are all of its valid samples and nothing else, in order |
| Callbacks.SamplesLaw | DataReaderListener.cpp:81-88 | its histories of counts and arrivals are those of the samples |
| Callbacks.AllKnownIff | DataReaderListener.cpp:160-174 | events are all known iff none has a bad status and none an unknown instance state |
| Callbacks.EachOnceIff | DataReaderListener.cpp:85-88 | no repeats and a passing reliable audit mean each count below n exactly once and nothing else |
| Xml.FindIsFirst | XMLParser.cpp:38-60 | the search returns the first node of that name in document order among the start node, its following siblings and all below them, and null iff there is none |
| Xml.FindNodeByName | XMLParser.cpp:38-60 | the loop with recursion into children is that search, and terminates |
| Xml.FindPadded | XMLParser.cpp:38-60 | the search finds the corresponding node however whitespace was inserted |
| Xml.FindInChain | XMLParser.cpp:38-60 | the search descends a chain of elements to the one named |
| Xml.LeavesReadBack | DataReaderListener.cpp:96-106 | listing the contents of leaf elements gives the values back, however whitespace was inserted |
| Xml.RequestRoundTrip | XMLParser.cpp:148-186 | build, print, parse, search and extract gives the domain followed by the item ids in order, for get and set requests |
| Xml.ResponseRoundTrip | XMLParser.cpp:188-219 | the items of a response are recovered in order from its parsed document |
| Xml.GetRequestElements | XMLParser.cpp:148-186 | the get request, element by element from `DDS_request` through `Read` to the list |
| Xml.SetRequestElements | XMLParser.cpp:220-258 | the set request, element by element from `DDS_Setresponse` through `Write` to the list |
| Xml.ResponseElements | XMLParser.cpp:188-219 | the response, element by element from `DDS_response` to the list |
| Xml.ServiceTold | XMLParser.cpp:148-258 | a parsed request has the elements `DDS_request` and `Read` iff it is a get request, `DDS_Setresponse` and `Write` iff it is a set request |
| XmlBuilder.NewTextChild | XMLParser.cpp:175-179 | appends one new element in place, with a text inside if there is content |
| XmlBuilder.GetDataValue | XMLParser.cpp:148-186 | the nodes grown in place form the get request document for the item ids |
| XmlBuilder.SetDataValue | XMLParser.cpp:220-258 | the nodes grown in place form the set request document for the item ids |
| XmlBuilder.GetDataValueResp | XMLParser.cpp:188-219 | the nodes grown in place form the response document for the items |
| StringTables.CopyString | DataReaderListener.cpp:102 | copying a string changes how that row reads, and no other row |
| StringTables.Clear | RespWriter.cpp:173 | zeroing the table makes every row read as empty |
| StringTables.TableShape | DataReaderListener.h:74-77 | the table is 100 rows of 255 characters read as C strings, and what fits is at most 100 strings of at most 254 characters |
| StringTables.TableHistory | DataReaderListener.cpp:96-106 | after any run of requests a row reads as the value of the latest request that reached that row, and as empty if none did |
| ServerListener.DataReaderListener.constructor | DataReaderListener.cpp:27-37 | starts with an empty table and set, and valid |
| ServerListener.DataReaderListener.OnDataAvailable | DataReaderListener.cpp:51-180 | one callback is one step of the listener's state, in all five cases |
| ServerListener.DataReaderListener.StoreRequest | DataReaderListener.cpp:92-106 | search and copy loop put exactly the extracted values into the first rows and leave the rest |
| ServerListener.DataReaderListener.IsValid | DataReaderListener.cpp:237-288 | true iff the flag is up and the counts pass the audit for 40 messages |
| ServerListener.ServerRunLaw | DataReaderListener.cpp:51-174 | after any run each part of the state is the corresponding history of the run |
| ServerListener.ForwardedLaw | DataReaderListener.cpp:92-135 | each sample, repeated or not, gives one signal, the command `request` with its stamp and count, and one list of extracted values |
| ServerListener.ServerAuditLaw | DataReaderListener.cpp:85-88 | over any run the reliable audit passes iff all statuses and states were good and each count below n came exactly once and no other; and the exact meaning in unreliable mode |
| ClientListener.RespDataReaderListener.OnDataAvailable | RespDataReaderListener.cpp:54-169 | one callback is one step of the listener's state, in all five cases |
| ClientListener.RespDataReaderListener.IsValid | RespDataReaderListener.cpp:219-270 | true iff the flag is up and the counts pass the audit for 40 messages |
| ClientListener.ClientRunLaw | RespDataReaderListener.cpp:54-163 | after any run each part of the state is the corresponding history of the run; the round-trip log has one row for each sample in order, with its count, its round-trip time and, as file number, how many of the counts received up to and with it are multiples of 10000 |
| ClientListener.ClientAuditLaw | RespDataReaderListener.cpp:127-130 | the client's audit tolerates repeated counts: with good events only it passes in reliable mode iff the counts received are exactly those below n, in unreliable mode iff none is negative and the number of distinct ones is between n/4 and n |
| ClientListener.FileOfCount | RespDataReaderListener.cpp:106-118 | without loss the row of count c goes to file c/10000+1, and n samples open n/10000 files, rounded up |
| Sender.Writer.Write | Writer.cpp:184-193 | a write is repeated exactly while it times out, and the sample is accepted once iff the last try succeeds |
| Sender.Writer.Svc | Writer.cpp:113-205 | the loop sends one sample for each count below 1000000 whose write succeeds |
| Sender.RequestContents | Writer.cpp:119-181 | parsed, the request of an even count lists the domain and the measured value, has subject g and the elements of a get request, that of an odd count the domain and the value to set, subject s and the elements of a set request |
| Sender.SentLaw | Writer.cpp:126-198 | the samples are exactly those of the successful rounds, in order, each with its round as count, its clock reading, and the document and subject of its parity |
| Responder.ListedAfterFill | RespWriter.cpp:137-143 | what is listed is the batch delivered last, whatever rows an earlier one left behind |
| Responder.ResultTable.ReadResults | RespWriter.cpp:137-143 | the loop lists exactly rows 1 to changed-1 |
| Responder.ResultTable.Reset | RespWriter.cpp:173-174 | empties every row and the marker |
| Responder.RespWriter.Write | RespWriter.cpp:160-169 | a write is repeated exactly while it times out, and the sample is accepted once iff the last try succeeds |
| Responder.RespWriter.ServeOne | RespWriter.cpp:126-176 | a request is answered with the listed results under its own count and timestamp, the write is repeated while it times out, and the table is emptied even if it failed; other signals are dropped |
| Responder.RespWriter.Svc | RespWriter.cpp:124-185 | the loop serves the queue head first until it is empty |
| Responder.AnswerableLaw | RespWriter.cpp:126-169 | the places answered are exactly those of the requests whose write succeeds, increasing |
| Responder.ServedLaw | RespWriter.cpp:124-176 | the loop writes one response for each of these places, in order, under the request's own count and timestamp; the first request in the queue lists the results there are, every later one nothing |
| Responder.AllServed | RespWriter.cpp:124-176 | when every write succeeds, response i answers signal i, and lists the results there are for the first and nothing for the others |
| Pipeline.SentStep | Writer.cpp:126-198 | every step keeps: counts increase, and each sample is the request of its count at its time |
| Pipeline.RequestsStep | DataReaderListener.cpp:119-135 | every step keeps: what was received, then what is under way, is in order among what was sent |
| Pipeline.ConservedStep | RespWriter.cpp:124-163 | every step keeps: received equals answered, then in service, then queued |
| Pipeline.ResponsesStep | RespWriter.cpp:156-163 | every step keeps: responses received, then under way, are in order among those answered |
| Pipeline.AlwaysInOrder | RespWriter.cpp:124-163 | all four hold in every reachable state |
| Pipeline.PipelineOrder | RespWriter.cpp:124-163 | in every reachable state requests are answered first in first out and none is invented, answered ones and those the client gets back are subsequences of those sent, and counts strictly increase at every stage |
| PipelineTimes.TimesStep | RespDataReaderListener.cpp:81-95 | every step keeps: each response received has a sender and a sending time in the past |
| PipelineTimes.RttRows | RespDataReaderListener.cpp:91-118 | row j of the round-trip log is computed from sample j |
| PipelineTimes.SampleMarksLaw | DataReaderListener.cpp:81-88 | the counts and stamps the machine compares are those of the samples |
| PipelineTimes.RoundTripTimes | RespDataReaderListener.cpp:87-118 | in every reachable state each logged round trip belongs to the sent request of that count and is the whole milliseconds from sending to receipt, never negative, iff the sending time fits a stamp |
| PipelineTimes.CountsInPipeline | DataReaderListener.cpp:85-88 | on either side no count is negative and none comes twice |
| PipelineTimes.GrownByFirstTwo | DataReaderListener.cpp:137-140 | the arrival queue grows once for each of the counts 0 and 1 received |
| PipelineTimes.IntervalsInPipeline | DataReaderListener.cpp:137-143 | in every reachable state, on either side, the interval just logged is measured from the previous arrival iff samples 0 and 1 both got through |
| PipelineResults.PublishStep | RespWriter.cpp:137-174 | every step keeps: the table holds one whole batch or nothing, reads and clearings alternate, and every response lists the batch its read found |
| PipelineResults.SourcesIncrease | RespWriter.cpp:137-174 | the batches found by reads have increasing numbers |
| PipelineResults.FoundIff | RespWriter.cpp:137-174 | a batch is found by a read iff its delivery is followed at once by a read |
| PipelineResults.Publication | RespWriter.cpp:137-174 | under every interleaving of the machine's steps each response lists one delivered batch, whole, or nothing; batches appear in order of delivery and none twice; and a batch is published or about to be iff the first thing to happen to the table after its delivery is a read |
| PipelineRequests.RequestsWellStep | Writer.cpp:139-174 | every step keeps: requests under way carry the document of their count and received ones read as such |
| PipelineRequests.TableOfRun | DataReaderListener.cpp:96-106 | the request table holds the domain and the item of the last request and nothing older |
| PipelineRequests.ServerInPipeline | DataReaderListener.cpp:81-135 | in every reachable state every document parsed has what is searched for and fits the table, the table is that of the last request, what is forwarded is what was received, and the flag is lowered by bad events only |
| PipelineRequests.AuditInPipeline | DataReaderListener.cpp:237-288 | in every reachable state the server's reliable audit passes iff no bad event came, exactly 40 requests were received and the last has count 39, and the unreliable one iff no bad event came and 10 to 40 requests were received |
| PipelineRequests.ClientAuditInPipeline | RespDataReaderListener.cpp:219-270 | the same for the client's audit and the responses it received |
| PipelineRequests.AuditOfLongRun | Args.h:22 | when more than 40 requests have been received the server's audit fails, in both modes |
| PipelineLosses.IntervalValues | DataReaderListener.cpp:137-144 | in every reachable state, on either side, the interval just logged is the milliseconds since the previous arrival if samples 0 and 1 both got through, zero if one of them did, and undefined if neither did |
| PipelineLosses.GapLoggedAsZero | DataReaderListener.cpp:137-144 | a run that loses request 0 and logs zero for the interval between samples 1 and 2, whatever their arrival times |
| PipelineLosses.IntervalUndefined | DataReaderListener.cpp:137-144 | a run that loses requests 0 and 1 and logs an undefined interval for sample 2 |
| PipelineLosses.GoneStep | RespWriter.cpp:137-174 | every step keeps: a batch that is neither used nor can be read before the table is cleared stays so |
| PipelineLosses.PublishableIff | RespWriter.cpp:124-174 | in every reachable state a delivered batch can still come to be published iff it has been read, or it is the last thing that happened to the table, the responder is not between reading and clearing, and a request to answer is taken, queued, under way or still to be sent |
| PipelineLosses.DeliveredInBetween | RespWriter.cpp:137-174 | a batch delivered between the reading and the clearing of the table is never published, whatever follows |
| PipelineLosses.BatchLost | RespWriter.cpp:137-174 | a run on which this happens to any batch |
| PipelineRuns.AllThroughLaw | Writer.cpp:126-198 | for every number of requests the client can send there is a run in which each is received, answered and got back, in order |
| PipelineRuns.AuditsWithoutLoss | DataReaderListener.cpp:237-288 | on such a run the reliable audit passes, on either side, iff the number is 40, and the unreliable one iff it is 10 to 40 |
| PipelineRuns.RoundTripAt | RespDataReaderListener.cpp:87-118 | a request sent and answered within the same instant is logged with a round trip of zero iff that instant's seconds fit 32 signed bits |
| RowReads.AlwaysReadsFrom | RespWriter.cpp:137-143 | whatever batches arrive between whichever accesses, the rows copied so far are taken from the batches in turn, and so is the row about to be copied after a successful loop test |
| RowReads.ListWhat | RespWriter.cpp:137-143 | for every list of items taken from the batches in turn, up to a length at which the loop can end, there are moments of arrival at which the loop lists it |
| RowReads.ListedIff | RespWriter.cpp:137-143 | so a response can list exactly these |
| RowReads.Undisturbed | RespWriter.cpp:137-143 | without an arrival it lists the batch in the table, whole |
| RowReads.OneDelivery | RespWriter.cpp:137-143 | with one arrival it lists the old batch, or the start of the old one with the rest of the new one |
| RowReads.Mixed | RespWriter.cpp:137-143 | a mixture that is neither batch is listed on some run, for any two batches that differ in their first two rows |
| PipelineComponents.ServedInOrder | RespWriter.cpp:124-163 | the responses to a queue are to some of its signals, in order and none twice |
| PipelineComponents.ServiceRefines | RespWriter.cpp:124-174 | from any state with the responder at the head of its loop, its undisturbed steps put on the response channel exactly what the service loop writes for the queue, and empty the queue |
| PipelineComponents.ServiceInPipeline | RespWriter.cpp:124-174 | every reachable state meets what that asks, so it holds whenever the responder is at the head of its loop |
| PipelineComponents.SenderRefines | Writer.cpp:126-198 | under a monotonic clock the machine's send steps produce exactly the samples of the send loop |
| PipelineComponents.DeliveriesAreCallbacks | DataReaderListener.cpp:119-135 | a delivery step is one callback of the listener, and queues exactly what the listener forwards |

## Left out

- ServerListener.DataReaderListener.OnDataAvailable: requires that a sample's document has the element searched for and lists at most 100 values of at most 254 characters; the code dereferences a null pointer or overruns its table otherwise, and the model does not describe that. `PipelineRequests.ServerInPipeline` shows that every request the client sends meets it.
- ServerListener.DataReaderListener.StoreRequest: requires the searched element and values that fit the table, for the same reason.
- ClientListener.RespDataReaderListener.OnDataAvailable: does not describe that at count 499999 both log files are closed while later samples are still written to them, because writing to a closed file has no meaning to model; the rows are those of the calls that print them. The same holds for the server's interval log.
- StringTables.CopyString: requires a string that fits its row, for the same reason.
- DeliveryAudit.Audit: requires that four times the number of expected messages fits a 32-bit integer, as it does for the constant 40 of the code; the casts of the set's size are modelled.
- FieldUpdate.Holder.Assign: requires source and target field of one type; the code casts between them unchecked, and what a mismatch would store is not described.
- ArrivalTimes.IntervalLaw: an interval computed from the front of an empty queue is recorded as undefined; the value the code would read there is not described.
- MessengerTypes.MessageAt: a text is a C string without terminator inside whose length fits 32 bits, which is what a C string on the wire can be; longer ones, whose length word wraps, are laid out but nothing is proved about reading them.
- Strings no writer produces: one whose last byte is not a terminator is read without that byte, and a length of zero is read as the empty string; the stream library, which decides this, is not part of this model.
- What a failed read leaves in a partly filled message is not modelled; the readers return no value then.
- OpenDDS beyond the stream primitives: discovery, quality of service, matching, `take_next_sample` and instance handling. A callback is given its status, sample and state. Streams made of several buffers are not modelled.
- The channels lose and keep order but do not duplicate; repeats are treated in the laws about runs of callbacks.
- In the step machine callbacks and the reading and clearing of the result table are atomic steps. `RowReads` treats the reading loop access by access; the clearing of the table and the arrival of a batch are one step there too.
- Both programs ask `is_valid` only behind loops that do not end (`DDS_Client.cpp:261-277`, `DDS_Server.cpp:262-277`); the laws say what it answers in any state.
- The protocol client behind the gateway, whose header `MMS_client.h` is not part of this model: it delivers batches of at most 99 rows from row 1 on and sets the marker. The marker is assumed to start at zero, which the constructor does not ensure.
- XML printing, escaping, parsing, attributes and comments; encoding of text; documents are trees.
- The subject of a response, which the responder never sets, is a fixed arbitrary byte.
- Console and CSV output, file handles, sleeps, the waiting for matches, and what happens after count 499999, where log files are closed while rows are still written.
- The service loop blocks on an empty queue and never ends; `Responder.RespWriter.Svc` ends when the queue is empty.
- Query comparators, key-only marshalling, maximum sizes, memory management, narrowing and registration in the generated code: comparators order samples by a named field for queries, key-only marshalling writes nothing since the types have no keys, and the rest allocates, casts and names types.
- `getServerDirectory_8_2`, its response and `setDataValue_resp_8_2`: nothing calls them, and the first two use an unset buffer.
- `DDS_Client.cpp`, `DDS_Server.cpp`, argument parsing and QoS loading.
