# A verified model of the ShapeType interoperability programs

The repository builds small programs that publish and subscribe `ShapeType` samples over several
DDS products. Three pieces of them have logic of their own, and this project models those and
proves what they keep:

* **The CDR codec and instance key** of the eProsima program: `ShapeType`, `ShapeTypePubSubType`.
  `Bytes`, `CdrWire` and `ShapeLaws` hold octets, the wire format and its laws; `CdrStream`,
  `ShapeTypes` and `PubSubTypes` hold the classes; `PayloadLaws` holds the laws of whole payloads.
* **The publish/receive loop** and its time arithmetic. `DdsTime` has the InterCOM operators,
  `CxxLoop`, `JavaLoop` and `EProsimaLoop` the three loops, `Pacer` a machine on plain integers
  with the laws of its runs, and `LoopRefinement` the proof that the loops refine it and the laws
  of the C++ and Java loops that follow.
* **The command line**, written three times: `Options` is the grammar, `OptionLoops` the three
  index loops, `OptionLaws` the laws. `Liveliness` and `PropertyMerge` model two uses of options.

`EndToEnd` combines them: from arguments to samples, and from samples to the receiving object.

The environment (clock readings, wake-ups, received samples, system properties) is a parameter.
Classes are used where the source has objects with mutable fields or buffers; each method is tied
to a function of the old state, and the laws are lemmas about those functions.

## What the proofs show about the code

* Before the first send `last_send_time` is zero, so a pass that sends nothing sets
  `wait_timeout` to the absolute due time, not to the period (`CxxTimeoutIsPeriod` says exactly
  when). On an environment that is punctual up to a slack, the first send of the C++ loop can come
  at exactly the times from the due time on that are at most the due time and the slack, or below
  twice the due time and the slack, as far as 32-bit seconds reach (`CxxFirstSendTimes`). So for
  every start after zero that leaves room for three periods and the slack, a single early wake-up
  can delay the first send to two periods and the slack or more (`CxxFirstGapBounded`); later
  gaps never get that wide. The Java loop's 64 bits leave room for far longer delays
  (`JavaFirstSendTimes`, `JavaFirstGapBounded`).
* The timeout is always a whole period, also when a part of it has passed, so the bound of two
  periods is attained (`GapIsTight`, `CxxGapIsTight`).
* `operator+` checks only its left operand for `TIME_INVALID` (`AddInvalidRight`).
* `getKeyMaxCdrSerializedSize` is documented as a size but returns the final offset; it is a size
  only from offset 0, the only way it is called.
* `getKey` lets the stream's exception escape when the colour is longer than 64 octets, and
  `serialize` and `deserialize` do when the header does not fit or cannot be read.
* The C++ program sends every 100 ms and the Java program every second, so as publishers they never
  show the same (`ShippedProgramsAgree`).
* Even with one period, the two programs differ in the `y` they write unless C++'s first `char`
  and Java's first `char` of the colour are congruent modulo 125 and on the same side of 'A' (or
  both congruent to it), and the Java program ends with an exception when a clock reading reaches
  the first due time and the colour is empty (`YAgrees`, `LoopsAgree`, `BehaviourAgrees`). If Java
  takes octets as characters one to one, they agree exactly for ASCII; if it decodes UTF-8,
  exactly for ASCII and for U+013B, whose octets start with C4 (`YAgreesOneToOne`, `YAgreesUtf8`).
* An explicit `-domain -1` is taken as no domain and becomes 0 (`GivenIsKept`).
* `deserialize` accepts strings that no writer makes: a length of zero, no NUL at the end, or a NUL
  inside. An accepted buffer carries the shape returned exactly if its string is none of these.
* The eProsima liveliness fraction uses 4294967000 for 2^32: exact only for whole seconds.

## Choices about code that is not here

The vendor stream is not part of this model's sources. `Cdr` follows the CDR transfer syntax
(section 9.3 of CORBA 3.3, Part 2): items of four octets are aligned to four from the end of the
header, padding is skipped and not written, a primitive that does not fit throws
`NotEnoughMemory` and leaves the stream as it was, a string included: a stream that writes the
length before it finds that the characters do not fit would change four octets more than
`PutShapeExactly` and `EncodeLaws` say of a failure. A received string drops one trailing NUL and a
length of zero is the empty string. The header follows section 10 of DDSI-RTPS 2.2; identifiers
other than CDR_BE and CDR_LE throw. MD5 is an unknown function of the octets fed since `init`.
`TIME_INFINITE` is taken to have the fields of `DURATION_INFINITE` (section 2.3.3 of DDS 1.4);
only its nanoseconds being at least 2*10^9 matters. `current_time >= next_send_time` compares
seconds, then nanoseconds. Signed overflow wraps. A C `char` is signed. Both programs' arguments
are lists of octets; the character that Java makes of the start of a colour is a parameter.

## Model

| member | source | states |
|---|---|---|
| Bytes.ByteOrder | srcCxx/eprosima_fastrtps/ShapeTypePubSubTypes.cpp:47-49 | the octets of a 32-bit word in both byte orders |
| Bytes.FromOctetsOfOctets | srcCxx/eprosima_fastrtps/ShapeType.cpp:118-132 | reading a number written in base 256, in either order, gives the number |
| Bytes.OctetsOfFromOctets | srcCxx/eprosima_fastrtps/ShapeType.cpp:118-132 | writing a number read from octets gives the octets |
| Bytes.WrittenDigits | srcCxx/eprosima_fastrtps/ShapeType.cpp:120 | four octets are those written for a length exactly if they are its digits in base 256, most significant first or last |
| Bytes.SignedDigits | srcCxx/eprosima_fastrtps/ShapeType.cpp:121-131 | the same for the signed fields, written and read: the digits are those of the value modulo 2^32 |
| CdrStream.Cdr.ReadEncapsulation | srcCxx/eprosima_fastrtps/ShapeTypePubSubTypes.cpp:69-73 | the header, not the reader's default, selects the byte order; alignment restarts behind it |
| ShapeLaws.ExactSize | srcCxx/eprosima_fastrtps/ShapeType.cpp:101-124 | from every offset, serializing succeeds exactly if the computed size fits and then advances by exactly that size |
| ShapeLaws.CdrSizeModulo4 | srcCxx/eprosima_fastrtps/ShapeType.cpp:85-116 | sizes depend on the starting offset only modulo 4 |
| ShapeLaws.CdrSizeMonotone | srcCxx/eprosima_fastrtps/ShapeType.cpp:85-116 | a colour within the bound never needs more than the maximum size |
| ShapeLaws.PutShapeFits | srcCxx/eprosima_fastrtps/ShapeType.cpp:118-124 | serializing succeeds exactly if the layout ends within the stream, and stops where it ends |
| ShapeLaws.PutShapeExactly | srcCxx/eprosima_fastrtps/ShapeType.cpp:118-124 | serializing writes every field that ends within the limit at its place and no other octet, padding included, whether it then throws or not, on a stream whose strings are written whole or not at all |
| ShapeLaws.PutShapeStops | srcCxx/eprosima_fastrtps/ShapeType.cpp:118-124 | where writing stops, behind the last field that fits |
| ShapeLaws.WrittenIsCarried | srcCxx/eprosima_fastrtps/ShapeType.cpp:118-124 | when all fields fit, what was written is exactly the declared layout |
| ShapeLaws.CarriedIsRead | srcCxx/eprosima_fastrtps/ShapeType.cpp:126-132 | any buffer with the layout is read as the shape, whatever padding and tail hold |
| ShapeLaws.StringRead | srcCxx/eprosima_fastrtps/ShapeType.cpp:128 | which string is read from any octets, and when none is |
| ShapeLaws.GetShapeFields | srcCxx/eprosima_fastrtps/ShapeType.cpp:126-132 | what reading leaves in the object on every stream, field by field: a field behind the limit, and those after it, keep the old value, those before it are overwritten |
| ShapeLaws.TruncatedThrows | srcCxx/eprosima_fastrtps/ShapeType.cpp:126-132 | a stream that ends before the layout does makes the reader throw |
| ShapeLaws.AcceptedCarries | srcCxx/eprosima_fastrtps/ShapeType.cpp:126-132 | an accepted buffer carries the sample that the reader returns exactly if its string is properly terminated |
| ShapeLaws.ZeroLengthAccepted | srcCxx/eprosima_fastrtps/ShapeType.cpp:126-132 | a string of length zero is accepted as the empty colour though it is not proper |
| ShapeTypes.ShapeType.Serialize | srcCxx/eprosima_fastrtps/ShapeType.cpp:118-124 | status and stream after writing colour, x, y, size in this order, also when it throws; nothing past the limit changes |
| ShapeTypes.ShapeType.Deserialize | srcCxx/eprosima_fastrtps/ShapeType.cpp:126-132 | status, object (fields read before a throw stay overwritten) and position after reading |
| ShapeTypes.ShapeType.GetCdrSerializedSize | srcCxx/eprosima_fastrtps/ShapeType.cpp:101-116 | the four-step computation is the size of the layout, from every offset |
| ShapeTypes.ShapeType.GetMaxCdrSerializedSize | srcCxx/eprosima_fastrtps/ShapeType.cpp:85-99 | it bounds the size of every shape with a colour within the bound |
| ShapeTypes.ShapeType.GetKeyMaxCdrSerializedSize | srcCxx/eprosima_fastrtps/ShapeType.cpp:134-145 | returns the final offset, which is the key's size exactly from offset 0; there it is 69, and key octets fit exactly for colours within the bound |
| ShapeTypes.KeySizeExact | srcCxx/eprosima_fastrtps/ShapeType.cpp:134-158 | from every offset, writing the key takes exactly the key size |
| PayloadLaws.RoundTrip | srcCxx/eprosima_fastrtps/ShapeTypePubSubTypes.cpp:44-85 | a payload reads back as its shape, for both byte orders, any padding, any old object, any octets appended |
| PayloadLaws.SerializedIsRead | srcCxx/eprosima_fastrtps/ShapeTypePubSubTypes.cpp:44-85 | what serialize succeeds in writing over any old content, deserialize reads back |
| PayloadLaws.EncodeLaws | srcCxx/eprosima_fastrtps/ShapeTypePubSubTypes.cpp:44-64 | success exactly if there is room for the payload; then the octets start with a payload for the shape; otherwise nothing, or header and each field that fits, is written, and nothing else, strings being written whole or not at all |
| PayloadLaws.PayloadLayout | srcCxx/eprosima_fastrtps/ShapeTypePubSubTypes.cpp:44-64 | the payloads of a shape, octet by octet: 0, 0 or 1 for the byte order, two zeros, the length, the colour, NUL, and at the next multiple of four x, y, size |
| PayloadLaws.EncodedHeader | srcCxx/eprosima_fastrtps/ShapeTypePubSubTypes.cpp:51 | the four octets of the header, whatever becomes of the shape |
| PayloadLaws.StrictPrefixRefused | srcCxx/eprosima_fastrtps/ShapeTypePubSubTypes.cpp:66-85 | every strict prefix is refused: by an exception below 4 octets, by false from there on |
| PayloadLaws.PrefixLeaves | srcCxx/eprosima_fastrtps/ShapeTypePubSubTypes.cpp:66-85 | what a refused prefix leaves in the object: the fields that lie within it are new, the others old |
| PayloadLaws.DecodeFields | srcCxx/eprosima_fastrtps/ShapeTypePubSubTypes.cpp:66-85 | a throwing call leaves the object alone; any other reads the fields behind the header in the byte order that its second octet names |
| PayloadLaws.PrefixFree | srcCxx/eprosima_fastrtps/ShapeTypePubSubTypes.cpp:44-85 | if one payload starts another they are equal and carry the same shape |
| PayloadLaws.AcceptedPayload | srcCxx/eprosima_fastrtps/ShapeTypePubSubTypes.cpp:66-85 | an accepted payload carries the sample returned exactly if its string is proper |
| PayloadLaws.ZerosAccepted | srcCxx/eprosima_fastrtps/ShapeTypePubSubTypes.cpp:66-85 | twenty zeros are accepted but carry no shape |
| PayloadLaws.DecodeThrows | srcCxx/eprosima_fastrtps/ShapeTypePubSubTypes.cpp:71-73 | deserialize throws exactly if the header is cut or its identifier is neither CDR_BE nor CDR_LE |
| PubSubTypes.ShapeTypePubSubType.constructor | srcCxx/eprosima_fastrtps/ShapeTypePubSubTypes.cpp:32-37 | the type size is 88 and suffices for every shape in the bound; the key buffer holds the longest key |
| PubSubTypes.ShapeTypePubSubType.Serialize | srcCxx/eprosima_fastrtps/ShapeTypePubSubTypes.cpp:44-64 | result and octets are those of Encode for every buffer content and size; length is the payload size on success and unchanged otherwise; nothing past max_size changes |
| PubSubTypes.ShapeTypePubSubType.Deserialize | srcCxx/eprosima_fastrtps/ShapeTypePubSubTypes.cpp:66-85 | result and object are those of Decode for every content; the header's byte order is noted unless the call throws |
| PubSubTypes.ShapeTypePubSubType.GetSerializedSizeProvider | srcCxx/eprosima_fastrtps/ShapeTypePubSubTypes.cpp:87-92 | the payload size modulo 2^32, so the payload size exactly if it is below 2^32 |
| PubSubTypes.ShapeTypePubSubType.GetKey | srcCxx/eprosima_fastrtps/ShapeTypePubSubTypes.cpp:102-125 | new key buffer, digester and handle; an over-long colour throws and changes nothing; the raw-key branch is unreachable |
| PubSubTypes.KeyHistory | srcCxx/eprosima_fastrtps/ShapeTypePubSubTypes.cpp:102-125 | over any calls on one object each handle is the digest of that call's colour alone, whatever was left in the buffer or the digester |
| PubSubTypes.KeyStepLaws | srcCxx/eprosima_fastrtps/ShapeTypePubSubTypes.cpp:102-125 | one call in full: the key octets over the start of the buffer, they alone digested; nothing for a colour over 64 octets |
| PubSubTypes.KeyOctetsAre | srcCxx/eprosima_fastrtps/ShapeType.cpp:152-158 | the key octets: big-endian length, colour, NUL |
| PubSubTypes.KeyPrefixFree | srcCxx/eprosima_fastrtps/ShapeType.cpp:152-158 | key octets are prefix-free: distinct colours are digested from distinct octets |
| DdsTime.AddTotals | srcCxx/intercom_dds/ShapeType_configurator_intercom_dds.h:21-68 | for non-sentinels with any nanosec: normalized, never a sentinel, and the sum of totals exactly if that fits |
| DdsTime.AddInvalidRight | srcCxx/intercom_dds/ShapeType_configurator_intercom_dds.h:48-68 | an invalid right operand yields an invalid sum only if the left one denotes zero |
| DdsTime.AddSentinels | srcCxx/intercom_dds/ShapeType_configurator_intercom_dds.h:48-68 | an infinite operand gives the infinite time, else an invalid left one the invalid time |
| DdsTime.SubtractTotals | srcCxx/intercom_dds/ShapeType_configurator_intercom_dds.h:30-46 | for all operands the difference of totals exactly if one borrow is enough and the seconds then fit 32 bits; normalized on normalized operands |
| DdsTime.AddSubtract | srcCxx/intercom_dds/ShapeType_configurator_intercom_dds.h:30-68 | (a + b) - a is b |
| CxxLoop.Run | srcCxx/ShapeType_main.cxx:345-424 | the loop computes the run function: counters, times, timeout, shared shape buffer, samples written |
| JavaLoop.Run | srcJava/IShapesMain.java:173-262 | the Java loop computes its run function, including the exception on an empty colour |
| EProsimaLoop.Run | srcCxx/eprosima_fastrtps/ShapeType_main.cpp:219-262 | the eProsima loop, with exact times, computes the machine's run: the shared buffer shows in no sample |
| Pacer.RunInv | srcCxx/ShapeType_main.cxx:345-424 | either nothing was sent and last is zero, or next is last plus a period and the timeout is the period; the k-th sample is the k-th of the sequence |
| Pacer.RateLimit | srcCxx/ShapeType_main.cxx:390-423 | any two sends are at least as many periods apart as there are sends between them, for any clock |
| Pacer.PeriodApart | srcCxx/ShapeType_main.cxx:390-423 | consecutive sends are at least a period apart, for any clock |
| Pacer.RateLimitCount | srcCxx/ShapeType_main.cxx:345-424 | sent_count periods fit between the start and the last send |
| Pacer.SendsIfDue | srcCxx/ShapeType_main.cxx:390-392 | a run sends exactly if the loop publishes and some clock reading is at or after start and period |
| Pacer.SendsAreGreedy | srcCxx/ShapeType_main.cxx:390-404 | a publishing run sends exactly at the greedy choice among its clock readings: the first at or after start and period, then the first a period or more after the last choice |
| Pacer.ReceivedIsIgnored | srcCxx/ShapeType_main.cxx:371-387 | on the same clock readings the samples received change nothing but their own count |
| Pacer.Received | srcCxx/ShapeType_main.cxx:373-386 | recv_count is the number of samples with valid data among all wake-ups, and zero without a reader |
| Pacer.TimeoutsAre | srcCxx/ShapeType_main.cxx:351-423 | the timeout of every wait: infinite without a writer; a period for the first and after a reading has reached the first due time; that time in between |
| Pacer.SamplesAre | srcCxx/ShapeType_main.cxx:405-413 | the k-th sample: the colour, 5 * ((k + 1) % 50), one y, 30 |
| Pacer.TimeoutIsPeriod | srcCxx/ShapeType_main.cxx:347-351 | the timeout after a pass is the period exactly if some reading has reached the first due time or the start is zero; before that it is the absolute due time |
| Pacer.BoundedGap | srcCxx/ShapeType_main.cxx:362-424 | on a punctual environment consecutive sends are less than two periods and the slack apart |
| Pacer.GapIsTight | srcCxx/ShapeType_main.cxx:417-422 | for every period and slack a punctual run attains that bound |
| Pacer.FirstSendBound | srcCxx/ShapeType_main.cxx:417-422 | the first send of a punctual run is on time for the first wait, or below twice the due time and the slack |
| Pacer.FirstSendTimes | srcCxx/ShapeType_main.cxx:417-422 | exactly which times the first send of a punctual run can have |
| Pacer.FirstGapBounded | srcCxx/ShapeType_main.cxx:417-422 | the gap bound of later sends holds for the first one, on all punctual runs, exactly for clocks that do not start after zero |
| Pacer.FiftyVisitAll | srcCxx/ShapeType_main.cxx:405-414 | any 50 consecutive samples visit each multiple of 5 in 0..245 exactly once |
| LoopRefinement.CxxRefines | srcCxx/ShapeType_main.cxx:345-424 | over every run in range the carry-and-borrow loop equals the integer machine, whatever was received into the shared buffer |
| LoopRefinement.JavaRefines | srcJava/IShapesMain.java:173-262 | so does the 64-bit Java loop; it throws exactly if it publishes an empty colour and some clock reading is at or after start and period |
| LoopRefinement.YAgrees | srcCxx/ShapeType_main.cxx:412 | the two y computations agree exactly for first characters congruent modulo 125 and on the same side of 'A', or both congruent to it |
| LoopRefinement.YAgreesOneToOne | srcJava/IShapesMain.java:227 | if Java takes octets as characters, exactly for ASCII |
| LoopRefinement.YAgreesUtf8 | srcJava/IShapesMain.java:227 | if Java decodes UTF-8, exactly for ASCII and U+013B |
| LoopRefinement.ScheduleIgnoresY | srcJava/IShapesMain.java:224-228 | counts, times, timeouts and all other fields do not depend on y |
| LoopRefinement.LoopsAgree | srcJava/IShapesMain.java:173-241 | with one period both loops pass through the same states, and show the same, exactly if no clock reading of a publisher has reached start and period, or the colour starts alike for both |
| LoopRefinement.BehaviourAgrees | srcJava/IShapesMain.java:173-241 | with periods of their own they show the same counts, sends and timeouts exactly if nothing is published, no pass is made, or the periods are equal and that condition holds |
| LoopRefinement.ShippedPeriodsDiffer | srcJava/IShapesMain.java:133 | with 100 ms and 1 s, exactly if nothing is published or no pass is made |
| LoopRefinement.CxxSamples | srcCxx/ShapeType_main.cxx:405-414 | the k-th sample of the C++ loop, with y as 4 * (first char - 'A') reduced below 250 with its sign, the char being signed |
| LoopRefinement.CxxReceived | srcCxx/ShapeType_main.cxx:373-386 | recv_count of the C++ loop counts exactly the samples with valid data |
| LoopRefinement.CxxTimeoutsAre | srcCxx/ShapeType_main.cxx:351-423 | the timeout of every wait of the C++ loop |
| LoopRefinement.CxxBuffer | srcCxx/ShapeType_main.cxx:353-414 | what the shared buffer holds after a pass: the sample sent, else the last one taken, else as before |
| LoopRefinement.CxxGaps | srcCxx/ShapeType_main.cxx:390-423 | rate limit and gap bound for the C++ loop's own times |
| LoopRefinement.CxxRateLimitCount | srcCxx/ShapeType_main.cxx:345-424 | sent_count periods fit between the start and the last send of the C++ loop |
| LoopRefinement.CxxTimeoutIsPeriod | srcCxx/ShapeType_main.cxx:347-351 | the C++ loop's timeout is a period exactly if some clock reading has reached start and period or the start is zero; before that it is the absolute due time |
| LoopRefinement.CxxSendsAreGreedy | srcCxx/ShapeType_main.cxx:390-404 | the C++ loop sends exactly at the greedy choice among its clock readings |
| LoopRefinement.CxxFiftyVisitAll | srcCxx/ShapeType_main.cxx:405-414 | any 50 consecutive samples of the C++ loop visit each multiple of 5 in 0..245 exactly once |
| LoopRefinement.CxxFirstSendTimes | srcCxx/ShapeType_main.cxx:417-422 | exactly which times the first send of a punctual run of the C++ loop can have, within 32-bit seconds |
| LoopRefinement.CxxFirstGapBounded | srcCxx/ShapeType_main.cxx:417-422 | the gap bound holds for the C++ loop's first send exactly if the start is not after zero or leaves no room for three periods and the slack |
| LoopRefinement.CxxGapIsTight | srcCxx/ShapeType_main.cxx:417-422 | a run of the C++ loop attains the gap bound exactly if the start leaves room for four periods and the slack |
| LoopRefinement.JavaSendsAreGreedy | srcJava/IShapesMain.java:210-238 | so does the Java loop, unless an exception ends it |
| LoopRefinement.JavaSamples | srcJava/IShapesMain.java:224-228 | the k-th sample of the Java loop, with y from its own first character |
| LoopRefinement.JavaWaits | srcJava/IShapesMain.java:170-241 | recv_count and the timeout of every wait of the Java loop |
| LoopRefinement.WrapI64Congruent | srcJava/IShapesMain.java:248-262 | sums and differences of times are exact modulo 2^64 |
| LoopRefinement.JavaRateLimit | srcJava/IShapesMain.java:210-238 | any two sends of the Java loop are at least as many periods apart as there are sends between them |
| LoopRefinement.JavaGaps | srcJava/IShapesMain.java:173-241 | on a punctual environment no gap between its sends reaches two periods and the slack |
| LoopRefinement.JavaFirstSendTimes | srcJava/IShapesMain.java:239 | exactly which times the first send of a punctual run of the Java loop can have, within 64-bit nanoseconds |
| LoopRefinement.JavaFirstGapBounded | srcJava/IShapesMain.java:239 | the gap bound holds for the Java loop's first send exactly if the start is not after zero or leaves no room for three periods and the slack |
| OptionLoops.CxxMain | srcCxx/ShapeType_main.cxx:470-577 | the index loop, with its own comparisons, equals the grammar |
| OptionLoops.EProsimaMain | srcCxx/eprosima_fastrtps/ShapeType_main.cpp:300-372 | the index loop, with its own comparisons, equals the grammar |
| OptionLoops.JavaMain | srcJava/IShapesMain.java:295-368 | the index loop, with its own comparisons, equals the grammar, NumberFormatException included |
| OptionLaws.TextOption | srcCxx/ShapeType_main.cxx:506-555 | what -pub, -sub, -color, -governance, -permissions and -partition set |
| OptionLaws.NumberOption | srcJava/IShapesMain.java:295-368 | what -domain and -livelinessPeriod set, and when Java throws |
| OptionLaws.CxxOption | srcCxx/ShapeType_main.cxx:474-547 | what -kest and -v do in C++; the others reject them |
| OptionLaws.SwitchOption | srcCxx/ShapeType_main.cxx:562-568 | what -disableSecurity and -logging set; an empty list is accepted |
| OptionLaws.OtherArgument | srcCxx/ShapeType_main.cxx:470-577 | any other word, and a value option at the end, is rejected |
| OptionLaws.ParseGroups | srcCxx/ShapeType_main.cxx:470-577 | a list of legal options parses to their effects in turn |
| OptionLaws.AcceptedAreGroups | srcCxx/ShapeType_main.cxx:470-577 | only lists of legal options are accepted |
| OptionLaws.LastWins | srcCxx/ShapeType_main.cxx:470-577 | each option variable ends with the value of the last option of its flag, alone |
| OptionLaws.Reordering | srcCxx/ShapeType_main.cxx:470-577 | reordering options of different flags changes nothing |
| OptionLaws.CxxAndEProsima | srcCxx/eprosima_fastrtps/ShapeType_main.cpp:300-372 | C++ and eProsima agree exactly if -v and -kest are not used or C++ rejects too |
| OptionLaws.ThreeParsersAgree | srcJava/IShapesMain.java:295-368 | the three programs treat a list alike exactly if every number reached parses in Java and, if C++ accepts it, no option of C++ alone is used and the last domain and period are read alike |
| OptionLaws.JavaFromCxx | srcJava/IShapesMain.java:295-368 | the Java result computed from the C++ one: crash, rejection, or the same variables with Java's readings of the last numbers |
| OptionLaws.UnreadableNumber | srcJava/IShapesMain.java:302 | a list on which they differ: a domain that C converts and Java does not |
| OptionLaws.RenderRoundTrip | srcCxx/ShapeType_main.cxx:470-614 | rendering settings and parsing them gives them back; parsing and defaulting does so exactly if they are resolved |
| OptionLaws.ResolvedIsFixed | srcCxx/ShapeType_main.cxx:579-614 | defaulting leaves settings alone exactly if nothing is missing |
| OptionLaws.ResolveKeeps | srcCxx/ShapeType_main.cxx:579-614 | exactly which variables defaulting leaves alone: the domain unless it is -1, the topics if one is given, the files if given or security is off, and so on |
| OptionLaws.GivenIsKept | srcCxx/ShapeType_main.cxx:470-614 | from argument list to program: it runs with the last value given for each flag, except that a given domain of -1 becomes the default |
| OptionLaws.DefaultsAre | srcCxx/ShapeType_main.cxx:579-614 | each variable after defaulting, with the default values written out per program |
| OptionLaws.NotGiven | srcCxx/ShapeType_main.cxx:470-614 | from argument list to program: it runs with the stated default for each flag not given; topics depend on each other, files and key establishment on -disableSecurity |
| OptionLaws.SameRun | srcJava/IShapesMain.java:370-399 | Java accepts what C++ accepts exactly if its numbers parse and no option of C++ alone is used; resolved settings then differ at most in key establishment and the two numbers |
| Options.Resolve | srcCxx/ShapeType_main.cxx:579-614 | the result of defaulting has everything that the programs need; its values are those of DefaultsAre |
| Liveliness.LeasesAgree | srcCxx/ShapeType_main.cxx:184-188 | the (sec, nanosec) split is normalized and equals Java's truncated nanoseconds |
| Liveliness.FractionClose | srcCxx/eprosima_fastrtps/ShapeType_main.cpp:87-91 | the fraction fits 32 bits and falls short of the period by less than 297 units of 2^-32 s |
| Liveliness.FractionExactOnWholeSeconds | srcCxx/eprosima_fastrtps/ShapeType_main.cpp:87-91 | it is exact only for whole seconds |
| Liveliness.LeasesRoundDown | srcCxx/eprosima_fastrtps/ShapeType_main.cpp:87-91 | the numbers next below: nanoseconds with 10^9, whole seconds, and the fraction with 4294967000; none for a period that is not positive |
| PropertyMerge.CreateProperties | srcJava/CafeConfigurator.java:68-125 | distinct names; each of the six names written out has the system's value or its file or parameter; besides them exactly the system settings that start with dds.sec |
| PropertyMerge.ListsSize | srcJava/CafeConfigurator.java:68-125 | such a list has as many properties as there are names |
| EndToEnd.EverySampleTravels | srcCxx/eprosima_fastrtps/ShapeType_main.cpp:219-262 | every sample of every run fits the type size and is read back unchanged |
| EndToEnd.OneKeyPerRun | srcCxx/eprosima_fastrtps/ShapeTypePubSubTypes.cpp:102-125 | one type object in any state computes one key for all samples of a run |
| EndToEnd.Exchange | srcCxx/eprosima_fastrtps/ShapeTypePubSubTypes.cpp:44-85 | two type objects carry any shape in the bound through a payload of the type size |
| EndToEnd.RolesAsked | srcCxx/ShapeType_main.cxx:598-604 | the C++ and the Java loop publish if -pub is given or no topic is, and subscribe if -sub is given or no topic is |
| EndToEnd.ColorAsked | srcCxx/ShapeType_main.cxx:405-411 | every sample sent carries the characters of the last -color given, or of BLACK, in order |
| EndToEnd.ProgramsAgree | srcJava/IShapesMain.java:282-415 | exactly when the Java program, with its own period, follows the C++ program from one argument list: conditions on arguments, publishing, periods and colour |
| EndToEnd.ShippedProgramsAgree | srcJava/IShapesMain.java:133 | with the periods of the code, exactly if Java accepts the list and nothing is published or no pass is made |

## Left out

- Participants, topics, wait sets, listeners, certificates, governance and permissions documents: vendor middleware and data.
- The other configurators (RTI, CoreDX, OpenDDS): straight-line property assertions, library time operators.
- EProsimaLoop.Run: the time operators of that program's library are taken as exact, on integers in the library's unit.
- `create_topic` of the eProsima program keeps one topic name per participant, so the later of two names also names the writer; not modelled. That program also passes an undeclared `key_establishment_algorithm`, which is dropped.
- The pointer comparison of topic names in srcCxx/ShapeType_main.cxx:320: it depends on how literals are merged.
- Colours with an embedded NUL or of 2^32 - 1 octets or more: a CDR string cannot carry them, so writing requires their absence.
- Logging, printing, usage text, signals, allocation failure, IEEE rounding of the liveliness period, wrap-around of the int counters and of size_t.
- The `-v` level is kept as a setting; messages are not modelled.
- LoopRefinement.CxxRefines: runs whose seconds overflow 32 bits, undefined in C++, are not covered.
