# Verification of the messaging core of the SGX SMS service

The service registers phone numbers inside an SGX enclave and sends short messages to registered ids. Its
parts talk in Protocol Buffers messages, for which the repository holds two generated implementations, one in
C++ and one in Java. This project models that code in Dafny and proves what it promises.

`dafny verify dfyconfig.toml` checks everything.

## Structure

| files | contents |
|---|---|
| `Wrappers`, `Sequences` | the optional value and two facts about sequences |
| `Wire`, `Schema`, `CodecTheorems` | the wire format as functions, a message class as a table, and the laws of parsing, serializing and merging |
| `MessageTables`, `MessageLayouts` | the twelve C++ classes as tables, and the order of their data members |
| `CodedStream`, `LeafMessage`, `RootMessage`, `AllInOne` | the C++ message objects: parser loops with jumps, cached sizes, has-bits, owned sub-message pointers |
| `JavaTables`, `JavaCodec` | the six Java classes as tables, what their parsing constructors accept, agreement with C++ |
| `JavaLists`, `JavaMessages`, `JavaBuilders`, `JavaSession`, `JavaSamples` | the Java message objects and builders: shared lists, memo fields, all runs over them, and one run in full |
| `Base64`, `HexText` | the text codecs |
| `Attestation` | the packed buffer of an attestation result |
| `Registry`, `Replies`, `MessageHandler`, `Exchanges`, `ServiceRuns` | phone registry, reply protocol, request dispatch, what requests and replies are in literal messages, and all runs of the service |

Every generated class is one instance of a code template, so the objects are classes over a table. A table holds
the literals of one class as they stand in its source: tags, ExpectTag operands, cutoff, group guards, required
masks, presence bits, tag sizes. The laws hold for every consistent table; the tables of the repository are shown
consistent one by one. A has-bits word is the set of its set bits. Each object carries a ghost field for its value,
which is its present fields, and its methods are proved against functions on those values. The getters of a leaf or
Java message show the value. The sub-message getters of AllInOneMessage do not test the has-bit, so a second ghost
field, `held`, says what lies behind each pointer, and `RootMessage.Root.Get` shows that.

The functions that contracts name are fixed in turn by statements with literals: the bytes of a varint, the required
fields of each class, the alphabets, the offsets of the attestation buffer, the contents of every reply, and where in a
request the phone, the id and the text are. Messages are written there as their fields in order, counted from 0.

Varints, length prefixes and packed lists follow the Protocol Buffers Encoding guide ("Base 128 Varints", "Message
Structure", "Packed Repeated Fields", "Last One Wins"), since the library that both implementations call is not
part of the repository. Where the library's behaviour is open (skipping an unknown field, an overlong length
prefix, the C++ read of a list under its unpacked tag) it is an arbitrary function, and the results hold for every
choice. One law needs more: concatenating any two accepted inputs (`CodecTheorems.AcceptedConcatIsMerge`) requires that
what the library makes of a prefix does not depend on the bytes behind it, and that it refuses overlong lengths
(`PrefixStable`). The callees of Java meet this whenever skipping an unknown field does
(`JavaCodec.JavaLibraryStable`). Cryptography is a set of arbitrary functions that may fail, of which only this is
assumed: unsealing undoes a sealing that succeeded, and the sizes.

Four promises hold under a condition that is proved to be exact:

* `Clear` of AllInOneMessage skips the pointers of absent sub-messages. The objects behind them are default
  afterwards exactly if they were before (`RootMessage.Root.Clear`). Every accessor of the message keeps them so; a
  write through a pointer kept after `clear_x()` does not: `Clear` then leaves a getter that shows the written data
  (`AllInOne.KeptPointer`).
* What Java writes arrives in C++ unchanged exactly if its `type` is absent or at most 10; a larger type is lost, and
  with it a required field (`JavaTables.CppReadsEveryJava`, with type 11 in `JavaTables.UndeclaredWitness`).
* A refused Java parse leaves the message that the C++ loop leaves exactly if it did not stop at an unreadable value
  (cut off, or longer than ten bytes) of a scalar that was absent until then. If it did, that scalar is present with the
  value 0, because the presence bit is set first; a scalar read before keeps its value (`JavaCodec.JavaParseAgrees`, with the byte 8 in
  `JavaCodec.CutAfterTag`). The builder's merge from a stream merges the unfinished message, so exactly then it sets a
  scalar to 0 that the input never gave a value (`JavaCodec.StreamMerge`, `JavaBuilders.Builder.MergeFromStream`).
* `ByteArrayToStringNoFill` gives one character a byte exactly if all bytes are below 16 (`HexText.NoFillLength`).

## Model

| member | source | states |
|---|---|---|
| CodecTheorems.RoundTrip | EnclaveCPP/GoogleMessages/Messages.pb.cc:3350-3977 | for every well-formed table, every message that fits an int size and every library: parsing its serialization succeeds, ends exactly at the last byte and gives the message back |
| AllInOne.RoundTrip | EnclaveCPP/GoogleMessages/Messages.pb.cc:5931-6299 | the same for AllInOneMessage with no hypothesis on tables: through every sub-message length prefix, packed list and the two-byte tag 130 |
| CodecTheorems.SerInjective | EnclaveCPP/GoogleMessages/Messages.pb.cc:3797-3977 | equal bytes come from equal messages |
| CodecTheorems.ConcatIsMerge | EnclaveCPP/GoogleMessages/Messages.pb.cc:4220-4255 | parsing serialize(a) followed by serialize(b) gives MergeFrom of b into a |
| CodecTheorems.ParseIntoIsMerge | EnclaveCPP/GoogleMessages/Messages.pb.cc:3350-3654 | parsing any bytes, well formed or not, into a message ends as parsing them into an empty one does, and leaves the message merged with what that leaves |
| CodecTheorems.AcceptedConcatIsMerge | EnclaveCPP/GoogleMessages/Messages.pb.cc:5931-6123 | for a library that is stable under appended bytes and refuses overlong lengths: any two accepted inputs, canonical or not, with unknown fields or split lists, concatenate to an accepted input that means the merge of the two meanings |
| CodecTheorems.MergeAssociative | EnclaveCPP/GoogleMessages/Messages.pb.cc:6414-6457 | merging is associative through nested messages |
| CodecTheorems.MergeEmptyLeft | EnclaveCPP/GoogleMessages/Messages.pb.cc:6414-6457 | merging into an empty message is copying |
| Wire.ReadOfVarint | EnclaveCPP/GoogleMessages/Messages.pb.cc:3797-3835 | reading a base-128 varint undoes writing it, whatever bytes follow |
| Wire.ReadPackedOfPacked | EnclaveCPP/GoogleMessages/Messages.pb.cc:3439-3455 | reading packed elements undoes writing them |
| Wire.VarintBytes | EnclaveCPP/GoogleMessages/Messages.pb.cc:3797-3835 | the bytes of every 32-bit value: its seven-bit groups, least significant first, the high bit on all but the last |
| Wire.ReadMeans | EnclaveCPP/GoogleMessages/Messages.pb.cc:3350-3380 | what is read from any bytes: the low 32 bits of the groups up to the first byte below 128, if it is among the first ten, and else nothing |
| Wire.VarintSizeIsLength | EnclaveCPP/GoogleMessages/Messages.pb.cc:3979-4010 | the size thresholds ByteSize uses are the lengths the writer emits |
| MessageTables.AllInOneWellFormed | EnclaveCPP/GoogleMessages/Messages.pb.cc:5931-6123 | tags, ExpectTag operands, cutoffs, group guards and required masks of AllInOneMessage and of all eleven nested classes are consistent |
| MessageLayouts.AttestationLayoutOk | EnclaveCPP/GoogleMessages/Messages.pb.cc:3316-3348 | the memsets of Clear, given the order of the data members, zero every scalar whose has-bit may be set and touch no list |
| MessageLayouts.Msg2LayoutOk | EnclaveCPP/GoogleMessages/Messages.pb.cc:1873-1900 | the same for MessageMSG2, whose memsets are not guarded |
| LeafMessage.SwitchIsDispatch | EnclaveCPP/GoogleMessages/Messages.pb.cc:3350-3380 | the cutoff and the field-number switch send every tag where a plain search over the cases sends it; no known field is diverted |
| LeafMessage.Leaf.MergePartialFromCodedStream | EnclaveCPP/GoogleMessages/Messages.pb.cc:3350-3654 | on every input the loop with ExpectTag jumps and early ExpectAtEnd returns the result and the message of the plain read-tag-and-dispatch loop |
| LeafMessage.Leaf.FollowTags | EnclaveCPP/GoogleMessages/Messages.pb.cc:1902-2137 | the goto chain after a case stays on the path of the plain loop, whether it ends at the end of input, at another tag or in a failure |
| LeafMessage.Leaf.ReadElements | EnclaveCPP/GoogleMessages/Messages.pb.cc:3439-3455 | a packed list is read up to its limit; elements in front of a malformed one are kept |
| LeafMessage.Leaf.ByteSize | EnclaveCPP/GoogleMessages/Messages.pb.cc:3979-4206 | the result is the number of bytes the serializers emit, every cached list length is the length of that list packed, and no guard hides a present field |
| LeafMessage.SizeOfList | EnclaveCPP/GoogleMessages/Messages.pb.cc:4095-4110 | the test data_size > 0 agrees with size() > 0 of the serializers, and the sum is the bytes of the field |
| LeafMessage.Leaf.SerializeWithCachedSizesToArray | EnclaveCPP/GoogleMessages/Messages.pb.cc:3797-3977 | given ByteSize ran, exactly the serialized form is appended and no write passes the end of the array |
| LeafMessage.Leaf.MergeFrom | EnclaveCPP/GoogleMessages/Messages.pb.cc:4220-4255 | lists, then guarded groups of scalars: the result is the value-level merge |
| LeafMessage.MergeGroupsIsMerge | EnclaveCPP/GoogleMessages/Messages.pb.cc:4220-4255 | the lists and the guarded groups together merge every field exactly once |
| LeafMessage.WalksCover | EnclaveCPP/GoogleMessages/Messages.pb.cc:3979-4206 | the guarded groups and the list blocks of ByteSize count every field exactly once |
| LeafMessage.Leaf.Clear | EnclaveCPP/GoogleMessages/Messages.pb.cc:3316-3348 | every has-bit, scalar and list is as in a new object |
| LeafMessage.Leaf.IsInitialized | EnclaveCPP/GoogleMessages/Messages.pb.cc:4269-4273 | the mask test says whether every required field is present |
| LeafMessage.Leaf.Set | EnclaveCPP/GoogleMessages/Messages.pb.h:2658-2662 | the field shows the value, nothing else changes, and a scalar stays non-zero only behind its has-bit |
| LeafMessage.Leaf.ClearField | EnclaveCPP/GoogleMessages/Messages.pb.h:2650-2653 | the field is absent again and reads as its default |
| LeafMessage.Leaf.AddAll | EnclaveCPP/GoogleMessages/Messages.pb.h:3045-3048 | the elements are appended to the list, nothing else changes |
| LeafMessage.Leaf.SetElement | EnclaveCPP/GoogleMessages/Messages.pb.h:3041-3044 | one element of the list changes |
| RootMessage.Root.MergePartialFromCodedStream | EnclaveCPP/GoogleMessages/Messages.pb.cc:5931-6123 | the nested parser, over owned sub-message pointers and pushed limits, ends on every input as the plain recursive loop does |
| RootMessage.Root.ReadSub | EnclaveCPP/GoogleMessages/Messages.pb.cc:5958-5969 | a length-prefixed sub-message merges into mutable_x(), also when it fails part way |
| RootMessage.Root.ByteSize | EnclaveCPP/GoogleMessages/Messages.pb.cc:6301-6400 | the result is the number of bytes emitted and every present sub-message has its size cached |
| RootMessage.Root.SerializeWithCachedSizesToArray | EnclaveCPP/GoogleMessages/Messages.pb.cc:6207-6299 | sub-messages go out under their cached lengths: exactly the serialized form is appended, inside the array |
| RootMessage.Root.MergeFrom | EnclaveCPP/GoogleMessages/Messages.pb.cc:6414-6457 | the value-level merge, recursively, with no sub-message shared between the two objects: into the message as it is once mutable_x() was called for every sub-message of the other, and so into its value when nothing lingers behind an absent field |
| RootMessage.Root.Clear | EnclaveCPP/GoogleMessages/Messages.pb.cc:5888-5929 | every has-bit and the type are cleared, so the value is empty; what lies behind each pointer afterwards, where the getters still show it, and that it is default data everywhere exactly if it was so behind every absent field before |
| RootMessage.Root.Get | EnclaveCPP/GoogleMessages/Messages.pb.h:3489-3492 | the getter shows what the pointer holds whatever the has-bit says: the value of a present field, and the default instance for an absent one in a message where nothing lingers |
| RootMessage.Root.Mutable | EnclaveCPP/GoogleMessages/Messages.pb.h:3493-3498 | the has-bit is set, the sub-message exists and is the pointer's own; what it shows is what the pointer held |
| RootMessage.Root.AcceptWrite | EnclaveCPP/GoogleMessages/Messages.pb.h:3493-3498 | after a write through a pointer from mutable_x() the getter shows it at once; the value has it exactly if the field is present, and behind an absent field the message is no longer tidy unless the data is the default |
| AllInOne.KeptPointer | EnclaveCPP/GoogleMessages/Messages.pb.cc:5888-5893 | a concrete run: after a write through a pointer kept from before clear_secretmsg(), Clear of the message, which also has a type, leaves an empty value and yet the written data behind the pointer, where secretmsg() shows it; the message is not tidy |
| AllInOne.KeptPointerShows | EnclaveCPP/GoogleMessages/Messages.pb.h:3493-3498 | the next mutable_secretmsg() of that message makes the written data present again |
| RootMessage.Root.ClearSub | EnclaveCPP/GoogleMessages/Messages.pb.h:3485-3488 | the field is absent and its object emptied |
| RootMessage.Root.Release | EnclaveCPP/GoogleMessages/Messages.pb.h:3499-3504 | the caller gets the pointer with its contents; the message no longer has it |
| RootMessage.Root.SetAllocated | EnclaveCPP/GoogleMessages/Messages.pb.h:3505-3514 | the message owns the given object and shows it; null clears the field |
| RootMessage.Root.SetType | EnclaveCPP/GoogleMessages/Messages.pb.h:3468-3473 | the type is present with this value, sub-messages untouched |
| RootMessage.Root.IsInitialized | EnclaveCPP/GoogleMessages/Messages.pb.cc:6471-6508 | the required mask and every present sub-message, recursively; AllInOne.InitializedIff says which fields these are |
| RootMessage.Root.ParseFromString | EnclaveCPP/MessageHandler/MessageHandler.cpp:688-696 | accepted exactly if the bytes parse to their end and every required field is there; the message is what a fresh parse gives, even on a used object; AllInOne.Receive states the acceptance field by field |
| AllInOne.Receive | EnclaveCPP/MessageHandler/MessageHandler.cpp:684-696 | a received message is taken exactly if the bytes parse to their end, the type is there, and every present sub-message has its type, and in msg0, attestMsg and smsresMsg also its second field |
| AllInOne.InitializedIff | EnclaveCPP/GoogleMessages/Messages.pb.cc:6471-6508 | the same fields, for any message: 0 everywhere, 0 and 1 in sub-messages 3, 7 and 11 |
| AllInOne.MissingEpid | EnclaveCPP/GoogleMessages/Messages.pb.cc:1355-1359 | the bytes 8, 0, 34, 2, 8, 0, a msg0 with a type and no epid, are refused |
| AllInOne.MissingEpidBytes | EnclaveCPP/GoogleMessages/Messages.pb.cc:6207-6299 | those bytes parse to their end: a type of 0 and a msg0 with a type of 0 |
| AllInOne.WithMsg0Bytes | EnclaveCPP/GoogleMessages/Messages.pb.cc:6207-6299 | the bytes of a message with a type and a msg0: 8, 0, 34, the length, and those of msg0 |
| AllInOne.PayloadBytes | EnclaveCPP/GoogleMessages/Messages.pb.cc:3797-3977 | the list payload with elements 200 and 3 is 130, 1, 3, 200, 1, 3 |
| AllInOne.Stops | EnclaveCPP/GoogleMessages/Messages.pb.cc:5931-5957 | the results for no input, tag 0, an end-group tag, a tag cut off, a type cut off, and an undeclared type, which is dropped |
| AllInOne.NestedStops | EnclaveCPP/GoogleMessages/Messages.pb.cc:5986-5999 | a msg0 that ends at a tag 0 or is cut off is refused, and is present and empty |
| AllInOne.MergedFields | EnclaveCPP/GoogleMessages/Messages.pb.cc:6414-6457 | in a sub-message that both messages have the other's scalars win and its elements follow; a sub-message that one has is kept |
| RootMessage.Root.SerializeToString | EnclaveCPP/MessageHandler/MessageHandler.cpp:82-94 | sizes, then bytes into a buffer of exactly that size |
| AllInOne.New | EnclaveCPP/GoogleMessages/Messages.pb.cc:5888-5929 | a new object whose layouts, Clear masks 255 and 3840 and tables are all consistent |
| AllInOne.LayoutsFit | EnclaveCPP/GoogleMessages/Messages.pb.cc:5888-5929 | each sub-message class has its own table and member order |
| JavaTables.SerAgrees | EnclaveCPP/Messages.java:6734-6826 | for equal field values with a declared type the Java and the C++ serializers emit identical bytes |
| JavaTables.TablesAgree | EnclaveCPP/Messages.java:3004-3072 | the tags and shapes of the six Java classes are those of their C++ namesakes |
| JavaTables.CppReadsJava | EnclaveCPP/Messages.java:6734-6826 | the C++ loop accepts every Java message; it gets the same message exactly if the type is absent or at most 10, and otherwise the message without its type |
| JavaTables.CppReadsEveryJava | EnclaveCPP/Messages.java:1613-1642 | the same for each of the six classes of the repository, with no hypothesis on tables; a lost type is a required field in all of them |
| JavaTables.UndeclaredWitness | EnclaveCPP/Messages.java:1613-1642 | an InitialMessage of type 11 is written as the bytes 8, 11, which C++ reads as a message without a type |
| JavaTables.JavaAttestationOk | EnclaveCPP/Messages.java:7328-7420 | tags, tag sizes, required fields and injective presence bits of AttestationMessage |
| JavaTables.JavaMsg2Ok | EnclaveCPP/Messages.java:3493-3555 | the same for MessageMSG2, whose message bits are renumbered |
| JavaTables.DescOfWellFormed | EnclaveCPP/Messages.java:6072-6379 | a consistent Java table is a consistent codec table |
| JavaCodec.MixedInput | EnclaveCPP/Messages.java:1396-1498 | for every interleaving of single elements, packed chunks, empty chunks and scalars of any fields: accepted, each list is its pieces in order, each scalar its last value |
| JavaCodec.JavaParseAgrees | EnclaveCPP/Messages.java:1396-1498 | on every input Java accepts exactly what the plain loop accepts; the message it leaves differs from the loop's if and only if the parse stops at an unreadable value of a scalar that was absent until then, and is then the loop's with that scalar present and 0 |
| JavaCodec.CutAfterTag | EnclaveCPP/Messages.java:1404-1408 | a witness: the single byte 8 is cut off in the first scalar, and the unfinished message has a type of 0 where the loop leaves none |
| JavaCodec.StreamMerge | EnclaveCPP/Messages.java:2033-2050 | merging the unfinished message into any message gives the merge of what the loop leaves, with the scalar that could not be read, if it was absent in the input until then, overwritten by 0 |
| JavaCodec.JavaLibraryStable | EnclaveCPP/Messages.java:1396-1480 | the callees of a Java parser are stable under appended bytes if skipping an unknown field is |
| JavaCodec.JavaConcatIsMerge | EnclaveCPP/Messages.java:1396-1498 | under that condition any two inputs Java accepts concatenate to one it accepts, whose message is the merge of the two |
| JavaMessages.ParsePartialFrom | EnclaveCPP/Messages.java:1385-1499 | the constructor leaves a message whose lists nobody can write, with the value and the outcome of the specification |
| JavaMessages.JavaMessage.ParseFields | EnclaveCPP/Messages.java:1396-1480 | the loop refines the specification and terminates by the bytes remaining under the limits |
| JavaMessages.JavaMessage.ReadChunk | EnclaveCPP/Messages.java:1417-1429 | a chunk appends its elements in order; an empty one allocates nothing |
| JavaMessages.JavaMessage.ReadSingle | EnclaveCPP/Messages.java:1409-1416 | a single element appends, after the list exists |
| JavaMessages.JavaMessage.Append | EnclaveCPP/Messages.java:1424-1426 | add runs only on a list this constructor allocated, never on the shared empty list |
| JavaMessages.JavaMessage.ReadScalar | EnclaveCPP/Messages.java:1404-1408 | the presence bit is set before the value is read, so a failed read leaves the field present with its old value |
| JavaMessages.JavaMessage.FreezeLists | EnclaveCPP/Messages.java:1486-1498 | every list the constructor made becomes a view |
| JavaMessages.JavaMessage.GetSerializedSize | EnclaveCPP/Messages.java:1644-1699 | the memoized or fresh size is the number of bytes of the message, and the memoized list sizes are the packed lengths |
| JavaMessages.JavaMessage.WriteTo | EnclaveCPP/Messages.java:1613-1642 | exactly getSerializedSize() bytes: the serialized form |
| JavaMessages.JavaMessage.IsInitialized | EnclaveCPP/Messages.java:1598-1611 | the memo never lies: true exactly if every required field is present |
| JavaMessages.CompleteIff | EnclaveCPP/Messages.java:784-797 | which fields are required: the first two of MessageMsg0 and of AttestationMessage, the first of the other four |
| JavaMessages.JavaMessage.HashCode | EnclaveCPP/Messages.java:1727-1753 | the memoized or fresh 32-bit hash is the hash of what the getters show |
| JavaMessages.HashOfFields | EnclaveCPP/Messages.java:1727-1753 | a present field adds its number after a factor 37 and its value or list hash after a factor 53, an absent or empty one nothing |
| JavaMessages.HashOfInitial | EnclaveCPP/Messages.java:225-242 | the hash of an InitialMessage, written out from 41 on |
| JavaMessages.ListHashSnoc | EnclaveCPP/Messages.java:1738-1741 | a list hash takes each element after a factor 31 |
| JavaMessages.JavaMessage.Equals | EnclaveCPP/Messages.java:1702-1725 | true exactly for equal values, and then the hashes are equal |
| JavaMessages.MessageBits | EnclaveCPP/Messages.java:3493-3555 | presence bits of the message agree with the builder's through the renumbering |
| JavaMessages.RepeatedSize | EnclaveCPP/Messages.java:1654-1667 | the element loop and the isEmpty() test add up to the bytes of the field |
| JavaBuilders.Builder.EnsureMutable | EnclaveCPP/Messages.java:2085-2091 | afterwards the builder alone owns the list: the old one or a private copy |
| JavaBuilders.Builder.Add | EnclaveCPP/Messages.java:2124-2129 | one element is appended; only lists this builder owns are written |
| JavaBuilders.Builder.AddAll | EnclaveCPP/Messages.java:2133-2140 | the elements are appended; only lists this builder owns are written |
| JavaBuilders.Builder.SetElement | EnclaveCPP/Messages.java:2114-2120 | one element changes; an index out of range throws and changes no value |
| JavaBuilders.Builder.ClearList | EnclaveCPP/Messages.java:2144-2149 | the list is the shared empty one and its bit is cleared |
| JavaBuilders.Builder.SetScalar | EnclaveCPP/Messages.java:3931-3936 | the field is present with the value |
| JavaBuilders.Builder.ClearScalar | EnclaveCPP/Messages.java:3940-3945 | the field is absent and its getter shows 0 |
| JavaBuilders.Builder.Clear | EnclaveCPP/Messages.java:1880-1892 | every field is at its default and no bit is set |
| JavaBuilders.Builder.MergeFrom | EnclaveCPP/Messages.java:1985-2023 | the value-level merge; the merged message keeps its value though lists may now be shared |
| JavaBuilders.Builder.MergeFromStream | EnclaveCPP/Messages.java:2033-2050 | what the parser read is merged whether it returned or threw: the merge of what the plain loop leaves, but for the one scalar, if any, whose first value in the input cannot be read, which becomes 0 |
| JavaBuilders.Builder.Share | EnclaveCPP/Messages.java:1990-1999 | taking over a message's list clears the bit, so it will be copied before any write |
| JavaBuilders.Builder.BuildPartial | EnclaveCPP/Messages.java:1915-1941 | the built message shows what the builder shows, and the lists they share have no writer left |
| JavaBuilders.Builder.Build | EnclaveCPP/Messages.java:1906-1912 | a message exactly if every required field is present |
| JavaSession.Session.Run | EnclaveCPP/Messages.java:1915-2149 | every run of edits, merges, builds, parses and queries over any number of builders and messages ends as the run in which nothing is shared and nothing memoized |
| JavaSession.MessagesNeverChange | EnclaveCPP/Messages.java:1915-2149 | copy-on-write safety: whatever runs later, a message keeps the value it was made with |
| JavaSession.OtherBuildersKeep | EnclaveCPP/Messages.java:1915-2149 | a builder changes only by its own edits and merges |
| JavaSession.Session.EditOne | EnclaveCPP/Messages.java:2085-2149 | one call on one builder changes no other builder and no message |
| JavaSession.Session.AllApart | EnclaveCPP/Messages.java:1985-2023 | no other builder and no message uses a list that a builder may write |
| JavaSession.Session.AskOne | EnclaveCPP/Messages.java:1598-1753 | a query, memoizing or not, answers as a fresh computation and changes no value |
| JavaSamples.SampleRun | EnclaveCPP/Messages.java:1915-2149 | a run with every answer in full: after more edits and a merge the first message still has the bytes 8, 5, 18, 1, 7 it was built with, and the second has 8, 5, 18, 3, 9, 8, 7 |
| Base64.Encode | EnclaveCPP/Util/Base64.cpp:14-52 | the accumulator loop and the tail give the group-by-group encoding of section 4 of RFC 4648 |
| Base64.EncodedLength | EnclaveCPP/Util/Base64.cpp:14-52 | length 4*ceil(n/3), with the character 61, which is =, exactly in the last (3 - n%3) % 3 places |
| Base64.Alphabet | EnclaveCPP/Util/Base64.cpp:4-7 | the 64 letters in order |
| Base64.GroupText | EnclaveCPP/Util/Base64.cpp:21-48 | the text of any one, two and three bytes, bit by bit, with one or two = |
| Base64.ShortTexts | EnclaveCPP/Util/Base64.cpp:14-52 | A is QQ==, AB is QUI= and ABC is QUJD |
| Base64.GroupBytes | EnclaveCPP/Util/Base64.cpp:63-93 | the bytes of any two, three and four letters, bit by bit |
| Base64.EncodedConcat | EnclaveCPP/Util/Base64.cpp:21-35 | the encoding splits over concatenation at multiples of 3 bytes |
| Base64.Decode | EnclaveCPP/Util/Base64.cpp:55-96 | for every string the result is the group-by-group decoding of its longest alphabet prefix, and depends on nothing else |
| Base64.DecodedLength | EnclaveCPP/Util/Base64.cpp:55-96 | a prefix of k characters gives floor(3k/4) bytes |
| Base64.RoundTrip | EnclaveCPP/Util/Base64.cpp:14-96 | decoding the encoding gives every byte sequence back |
| Base64.CanonicalIff | EnclaveCPP/Util/Base64.cpp:14-96 | encoding the decoding gives a text back exactly if it is canonical: groups of four, correct padding, zero unused bits |
| Base64.NoOverflow | EnclaveCPP/Util/Base64.cpp:63-78 | in a full group no sum passes 8 bits |
| Base64.DecodeTail | EnclaveCPP/Util/Base64.cpp:80-93 | the filler find(0), cut to 255, affects no emitted byte |
| Base64.FindOfLetter | EnclaveCPP/Util/Base64.cpp:4-7 | each alphabet character is found at its own position |
| HexText.RoundTrip | EnclaveCPP/Util/UtilityFunctions.cpp:21-56 | reading the padded text gives every byte array back despite the signed char |
| HexText.HexInjective | EnclaveCPP/Util/UtilityFunctions.cpp:21-29 | different byte arrays have different texts |
| HexText.ByteArrayToString | EnclaveCPP/Util/UtilityFunctions.cpp:21-29 | the padded text of the bytes, 2n characters |
| HexText.HexChars | EnclaveCPP/Util/UtilityFunctions.cpp:21-29 | characters 2k and 2k+1 are the high and the low digit of byte k, lower case |
| HexText.ByteArrayToStringNoFill | EnclaveCPP/Util/UtilityFunctions.cpp:32-40 | the text of the bytes without padding |
| HexText.NoFillChars | EnclaveCPP/Util/UtilityFunctions.cpp:32-40 | one more byte adds its one digit if it is below 16, and else its high and low digit |
| HexText.HexStringToByteArray | EnclaveCPP/Util/UtilityFunctions.cpp:43-56 | two characters at a time, an odd last one alone, into the front of the caller's array; nothing behind it changes |
| HexText.StrtolReads | EnclaveCPP/Util/UtilityFunctions.cpp:47-49 | digits of either case, a digit in front of another character, and a sign, a space or another character in front of a digit |
| HexText.UnhexMeans | EnclaveCPP/Util/UtilityFunctions.cpp:47-50 | byte n comes from characters 2n and 2n+1, a negative number as its 256 complement |
| HexText.NoFillLength | EnclaveCPP/Util/UtilityFunctions.cpp:32-40 | n bytes give n characters exactly if every byte is below 16 |
| HexText.NoFillInjective | EnclaveCPP/Util/UtilityFunctions.cpp:32-40 | on bytes below 16 the text determines the bytes |
| HexText.NoFillAmbiguous | EnclaveCPP/Util/UtilityFunctions.cpp:32-40 | with larger bytes it does not: 17 and 1,1 have the same text |
| Attestation.AssembleAttestationMSG | EnclaveCPP/MessageHandler/MessageHandler.cpp:307-372 | every write is inside the allocation, every field of the packed structures reads back its source value cut to its width, the payload from offset 153, status bytes and everything behind the payload are zero |
| Attestation.HeaderBytes | EnclaveCPP/MessageHandler/MessageHandler.cpp:323-324 | byte 0 is 4, bytes 1 and 2 are 0, bytes 3 to 6 the size, least significant first, byte 7 is 0 |
| Attestation.PlatformBytes | EnclaveCPP/remote_attestation_result.h:48-57 | byte 8 epid status; 9 and 10 tcb status; 11 and 12 pse status; psvn from 13, isvsvn from 31, psda from 33 and gid from 37 |
| Attestation.SignatureBytes | EnclaveCPP/remote_attestation_result.h:22-25 | x from 41 and y from 73, eight words each, byte by byte |
| Attestation.SecretBytes | EnclaveCPP/remote_attestation_result.h:29-38 | mac from 105, payload size at 121 to 124, reserved from 125, tag from 137, payload from 153 |
| Attestation.InBoundsIff | EnclaveCPP/MessageHandler/MessageHandler.cpp:311-322 | the writes are in bounds exactly if the claimed size is at least 145 and size + 8 + result size fits an int, and then that sum is the allocation |
| Attestation.WriteSignature | EnclaveCPP/MessageHandler/MessageHandler.cpp:348-351 | x and y, written in one loop, each read back word by word |
| Attestation.WriteSecret | EnclaveCPP/remote_attestation_result.h:29-38 | mac, payload size, reserved bytes, tag and payload in their places |
| Registry.RegisterUser | EnclaveCPP/isv_enclave/isv_enclave.cpp:313-372 | on success the id is the first half of the hash of the decrypted phone and the blob is that phone sealed; a decryption error writes nothing, a sealing error leaves the id written and the blob as it was |
| Registry.UnsealPhone | EnclaveCPP/isv_enclave/isv_enclave.cpp:374-405 | on success the buffer starts with the unsealed text |
| Registry.Database.Upsert | EnclaveCPP/MessageHandler/MessageHandler.cpp:535-549 | the row of the key holds the new blob, other rows are kept |
| Registry.Database.Select | EnclaveCPP/MysqlConnector/MysqlConnector.cpp:34-65 | the blob of the row, read back from its hexadecimal text |
| Registry.StoredKeeps | EnclaveCPP/MessageHandler/MessageHandler.cpp:459-497 | a registration keeps the invariant: every key is the hexadecimal first half of the hash of the phone that its blob unseals to |
| ServiceRuns.Serve | EnclaveCPP/MessageHandler/MessageHandler.cpp:684-749 | over every run of received byte strings each reply answers its call over the table of its time, the table is the one the registrations make, and its invariant holds at the end |
| ServiceRuns.ReturnedIdIsServed | EnclaveCPP/MessageHandler/MessageHandler.cpp:459-637 | after a registration and any further calls, an SMS call whose field 1 starts with the returned id can always be handled, and in every run that handles it any receiver reads its reply as type 10 with an smsresMsg of type 10 and code 200 |
| ServiceRuns.ReturnedIdIsStored | EnclaveCPP/MessageHandler/MessageHandler.cpp:459-549 | after a registration and any further calls the returned id has a row, which unseals to 11 bytes whose hash starts with the id |
| ServiceRuns.RegistrationRow | EnclaveCPP/MessageHandler/MessageHandler.cpp:459-549 | right after a registration the returned id is the first half of the hash of the phone that the first 11 elements of cipherPhone decrypt to under the first 16 of mac, and its row unseals to that phone |
| ServiceRuns.LastAnswered | EnclaveCPP/MessageHandler/MessageHandler.cpp:684-749 | the reply to the last call of a run answers it over the table that all calls before it made |
| ServiceRuns.RunKeeps | EnclaveCPP/MessageHandler/MessageHandler.cpp:459-549 | every run keeps the invariant of the table and every key in it |
| MessageHandler.Handler.HandleMessages | EnclaveCPP/MessageHandler/MessageHandler.cpp:684-749 | refused input gets no reply and an undeclared type never reaches the switch; for each request type exactly when it is answered and with which message, of the type's fixed successor; every other type gets no reply; only a registration changes the table |
| MessageHandler.RepliesParse | EnclaveCPP/MessageHandler/MessageHandler.cpp:684-749 | every receiver parses a reply, to its end, to an initialized message with exactly one sub-message, both of the reply's type |
| Exchanges.AcceptedIff | EnclaveCPP/MessageHandler/MessageHandler.cpp:684-696 | which received bytes are handled at all, field by field |
| Exchanges.ReplyContents | EnclaveCPP/MessageHandler/MessageHandler.cpp:82-94 | a receiver parses the reply's type, its one sub-message with exactly its contents, and nothing else |
| Exchanges.VerificationReply | EnclaveCPP/MessageHandler/MessageHandler.cpp:66-94 | a request of type 5 is answered by type 0 with msg0 of type 0, the group id as epid and no status |
| Exchanges.Msg0Reply | EnclaveCPP/MessageHandler/MessageHandler.cpp:639-660 | a request of type 0 whose status is 0 or absent is answered, if the enclave is up and MSG1 produced, by type 1 with the key and group bytes in msg1; else not at all |
| Exchanges.Msg2Reply | EnclaveCPP/MessageHandler/MessageHandler.cpp:231-304 | a request of type 2 is answered by type 3 with size, mac, keys, property and quote in msg3, or not at all |
| Exchanges.AttestationReply | EnclaveCPP/MessageHandler/MessageHandler.cpp:375-457 | a request of type 4 is answered by type 6 with an initMsg of type 6 and size 0 if both enclave calls succeed; else not at all |
| Exchanges.NoReply | EnclaveCPP/MessageHandler/MessageHandler.cpp:698-749 | requests of types 1, 3, 6, 8 and 10 get no reply and change nothing |
| Exchanges.RegistrationReply | EnclaveCPP/MessageHandler/MessageHandler.cpp:459-533 | a request of type 7: the first 11 elements of field 1 of regMsg, each modulo 256, decrypted under the first 16 of field 3, are stored sealed under the first half of their hash, no other row changes, and the reply has type 8 and that id |
| Exchanges.RegistrationLists | EnclaveCPP/MessageHandler/MessageHandler.cpp:468-474 | a registration that can be handled has a regMsg with lists as long as the loops |
| Exchanges.SmsReply | EnclaveCPP/MessageHandler/MessageHandler.cpp:613-633 | a request of type 9 is answered by type 10 with code 200 |
| Exchanges.SmsGoesTo | EnclaveCPP/MessageHandler/MessageHandler.cpp:588-613 | the phone is the one sealed under the first 16 elements of field 1 of smsMsg, each modulo 256, and its hash starts with them |
| Exchanges.SmsDelivers | EnclaveCPP/MessageHandler/MessageHandler.cpp:614-615 | the data buffer starts with 11 characters of the phone's text, then as many of the text of field 2 as field 3 says; digit by digit where all bytes are below 16 |
| MessageHandler.Handler.HandleRegisterMSG | EnclaveCPP/MessageHandler/MessageHandler.cpp:459-533 | the phone is stored under its id, the invariant is kept and the reply is the id; Exchanges.RegistrationReply says from which fields |
| MessageHandler.Handler.PutSealedPhone | EnclaveCPP/MessageHandler/MessageHandler.cpp:535-549 | one row: hexadecimal id to hexadecimal blob |
| MessageHandler.Handler.GetPhoneByUserID | EnclaveCPP/MessageHandler/MessageHandler.cpp:551-586 | for an id with a row: the phone sealed there, whose id it is |
| MessageHandler.Handler.HandleSMS | EnclaveCPP/MessageHandler/MessageHandler.cpp:588-637 | for an id with a row: code 200, and the phone and message texts in the data buffer; Exchanges.SmsReply, SmsGoesTo and SmsDelivers say which |
| MessageHandler.DigitsExact | EnclaveCPP/MessageHandler/MessageHandler.cpp:614-615 | the buffer holds each whole text, one digit a byte, exactly if all its bytes are below 16 |
| MessageHandler.HandleAttestationResult | EnclaveCPP/MessageHandler/MessageHandler.cpp:375-457 | the status test never rejects, so the reply depends on the two enclave calls alone |
| MessageHandler.GenerateMSG0 | EnclaveCPP/MessageHandler/MessageHandler.cpp:66-94 | a MSG0 reply with the group id |
| MessageHandler.GenerateMSG1 | EnclaveCPP/MessageHandler/MessageHandler.cpp:97-158 | a MSG1 reply with the key and group bytes in order, or none |
| MessageHandler.HandleMSG0 | EnclaveCPP/MessageHandler/MessageHandler.cpp:639-660 | a MSG1 reply exactly if the status was OK, the enclave came up and MSG1 was produced |
| MessageHandler.HandleMSG2 | EnclaveCPP/MessageHandler/MessageHandler.cpp:231-304 | a MSG3 reply with the MAC, keys, property and 1116 quote bytes in order, or none |
| Replies.ReplyParses | EnclaveCPP/GoogleMessages/Messages.pb.cc:6471-6508 | a reply parses to its type, its one sub-message and nothing else, initialized |
| Replies.SendReply | EnclaveCPP/MessageHandler/MessageHandler.cpp:82-94 | set_type, set_allocated_x and SerializeToString on a new message emit that reply |

## Left out

- unknown-field contents: the bytes of an unknown field are skipped, not kept; messages are compared by their known fields.
- the callee of the C++ unpacked-list branch: an arbitrary function, since it is handed the packed tag and its code is not part of this model. Mixed input is proved for Java.
- `SerializeWithCachedSizes` on an output stream, `CopyFrom`, `Swap`, reflection, descriptors and shutdown code: the same traversals again or library plumbing.
- MergePartialFromCodedStream: of AllInOneMessage, requires that nothing lingers behind an absent field, where a field that arrives would merge into what lingers. MergeFrom and Clear are stated for any message.
- ParseFromString: the same.
- MergeFromStream: says what the builder holds afterwards and not whether the call throws, since the stream is left to its caller for a check of the last tag.
- nested builders of the Java AllInOneMessage: the repository's Messages.java has no such class.
- GetSerializedSize: only for messages whose size fits an int; beyond that the Java sums wrap around.
- ByteSize: the same limit.
- Java's `equals` and `mergeFrom` on other classes, and the identity shortcuts `obj == this` and `other == getDefaultInstance()`, which change no result.
- HandleMSG2: takes the outcome of the SGX call as a parameter and leaves out `assembleMSG2` in front of it, whose loop index is uninitialised and which copies from the address of a pointer, so that it has no defined behaviour to model.
- HandleRegisterMSG: requires lists as long as the loops over them and that the enclave's call succeeds. The source stores the blob before it checks the status, so a failed call stores uninitialised memory.
- RegisterUser: a failing key or hash call is part of the failing decryption, since neither has written anything.
- Select: requires a row with the key. The source's test for a missing row does not detect a null row, and reads through it.
- GetPhoneByUserID: requires the looked-up row to exist for the same reason; the enclave's own status is not checked there.
- AssembleAttestationMSG: requires lists as long as the loops over them and the exact bounds condition of InBoundsIff; the source checks neither.
- HandleSMS: requires a registered id, lists of sufficient length and a message of at most 21 bytes, the room in the caller's 32-byte buffer; the source checks none of them.
- HandleAttestationResult: requires what AssembleAttestationMSG does.
- Serve: runs in which each accepted request meets what its handler relies on without a check, as listed for the handlers here.
- Encode: lengths above the unsigned int range, and in Decode above the int range, are not modelled.
- SQL text, the MySQL client, JNI bridges, Tomcat, the React client, logging, file helpers and retry loops around SGX calls: input, output and glue.
