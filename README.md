# librazzie core, modelled in Dafny

This project models the sequential core of librazzie, a small C++ header
library, and proves properties of that model:

- **Binary serializer** (`raz::Serializer`): fixed-width integers with an
  optional endianness-conversion policy, strings prefixed by a 32-bit
  length, and composite values that visit their own fields, such as the
  example's `Foo { user, age }`. `isBigEndian` and `swapEndianness` are
  included.
- **Byte buffers** the serializer writes into: the network
  `PacketBuffer`, whose mode is fixed, and the example `Buffer`, whose mode
  can be switched. Both truncate writes to their capacity and read back in
  FIFO order. The packet `Head`/`Tail` records are included.
- **`MemoryPool`**: a first-fit allocator of consecutive chunks, tracked by
  a bitmap.
- **The bitset example's `Container`**: slots over a bitmap, with add to the
  lowest free slot, remove of the first match, count and iteration in slot
  order. The `Bitset<32>` demo of `main` is included.
- **`raz::hash`**: the recursive DJB2 variant. `Event::stringhash` is its
  twin.
- **`CommandLineParser`**: `addCommand`, the token scan of `parse`, and how
  arguments are taken and converted by arity.
- **The input layer**: the button state machine of `InputDevice`; button
  and axis actions with `&&`, `||` and `!`; and the `ActionMap`, which tries
  its actions in id order and runs a handler chain that stops once an input
  is handled.
- **`CallbackSystem`**: a registration list with append and remove-first,
  delivery in registration order, and `Callback` objects that register on
  construction and unregister on destruction.
- **`stream.hpp`**: the `hex` dumper and the printf-style `format`
  specification parser. `format` is read with a conversion-letter table.
  `AsWritten` is the source's table, where 'o' selects hexadecimal.
  `Intended` is the corrected one, where 'o' selects octal (see Findings).

Modules follow the library's files:

| module | models |
|---|---|
| `Wrappers` | `Option` and `Result` |
| `Codec` | byte encodings of integers and strings, and buffer contents as a value (`Cursor`) |
| `Serialization` | the serializer class |
| `SerialBuffer` | the example `Buffer` |
| `SerializationExample` | `Foo` and `main` |
| `Network` | `PacketBuffer`, `Head`, `Tail` |
| `Memory` | the memory pool |
| `Bits` | the `truebits()` / `falsebits()` view of a bitset |
| `BitsetExample` | the container and the demo |
| `Hash` | the hash |
| `Cmdline` | the command-line parser |
| `Input` | the input layer |
| `Callbacks` | callbacks |
| `Stream` | `hex` and `format` |

Modelling conventions:

- The host byte order is a parameter (`Endianness`).
- Bytes are integers in 0 .. 255.
- `size_t` and `uint64_t` wrap-around is written out where the source
  depends on it: a request of 0 bytes, and the hash accumulator.
- Where the source throws, the model returns `Err`; `SerializationError`,
  `bad_alloc` and `out_of_range` each have a datatype.
- Several source lines do not compile. They are modelled as evidently
  intended:
  - `BUF_SIZE`/`Mode::` mean `SIZE`/`SerializationMode`.
  - `getSize` should return `m_data_len`.
  - `swapEndianness` should return `dest.t`.
  - The string overload's `write`/`read` are calls on `m_buffer`.
  - `main` calls `serializer.setMode`, which the serializer does not
    declare. It is modelled as forwarding to the buffer.
  - `Foo::operator()` declares a return type but has no return statement,
    which is undefined behaviour in C++. It is modelled as returning
    nothing, and its callers ignore the result.

## Model

| member | source | states |
|---|---|---|
| Codec.IsBigEndian | include/raz/serialization.hpp:159-168 | isBigEndian holds exactly on a big-endian host |
| Codec.Reverse | include/raz/serialization.hpp:181-182 | the result has the same length, and element i is element n-1-i of the input |
| Codec.ReverseReverse | include/raz/serialization.hpp:170-185 | swapping byte order twice gives the original bytes back |
| Serialization.SwapEndianness | include/raz/serialization.hpp:170-185 | the loop produces the input's bytes back to front |
| Codec.LittleEndianRoundTrip | include/raz/serialization.hpp:68-73 | reading back the w low base-256 digits of a value below 256^w gives the value |
| Codec.LittleEndianBytesOfValue | include/raz/serialization.hpp:78-86 | every w-byte sequence is the representation of the value it denotes |
| Codec.HostRoundTrip | include/raz/serialization.hpp:68-86 | an object representation in host memory order reads back as the same value on either byte order |
| Codec.ModulusIsPow256 | include/raz/serialization.hpp:63-64 | each integral type has 2^(8·sizeof) bit patterns |
| Codec.ToBits | include/raz/serialization.hpp:68 | the bit pattern of an in-range value is below 2^(8·sizeof) |
| Codec.FromBits | include/raz/serialization.hpp:86 | the value with a given bit pattern is in range and has that pattern |
| Codec.BitsRoundTrip | include/raz/serialization.hpp:68-86 | two's complement is a bijection: the value read from a value's bit pattern is that value |
| Codec.WireBytes | include/raz/serialization.hpp:66-74 | serializing an integer produces exactly sizeof(I) bytes |
| Codec.ConversionIsBigEndian | include/raz/serialization.hpp:70-71 | with EndiannessConversion on, the wire order is most significant byte first on every host |
| Codec.NoConversionIsHostOrder | include/raz/serialization.hpp:68-73 | without conversion, the bytes are the host's object representation |
| Codec.ValueOfWire | include/raz/serialization.hpp:78-86 | decoding sizeof(I) bytes always gives a value of type I |
| Codec.IntRoundTrip | include/raz/serialization.hpp:63-90 | deserializing what was serialized under the same policy and host gives the original integer |
| Codec.EndiannessSymmetry | include/raz/serialization.hpp:66-87 | with conversion on both sides, an integer written on one host reads back unchanged on a host of either byte order |
| Codec.DecodeInt | include/raz/serialization.hpp:78-81 | reading an integer succeeds exactly when sizeof(I) bytes remain, and then consumes exactly sizeof(I) bytes |
| Codec.DecodeIntOfEncoding | include/raz/serialization.hpp:63-90 | decoding an integer's encoding followed by anything gives the integer back and consumes only its sizeof(I) bytes |
| Codec.StringLength | include/raz/serialization.hpp:130 | the static_cast<uint32_t> length is a u32 no larger than the string, and equals its length below 2^32 |
| Codec.EncodeString | include/raz/serialization.hpp:128-135 | a string goes out as 4 + (its u32 length) bytes |
| Codec.DecodeString | include/raz/serialization.hpp:136-144 | a decoded string consumes 4 + its length bytes, never more than are available |
| Codec.StringRoundTrip | include/raz/serialization.hpp:126-147 | a string shorter than 2^32 bytes, followed by anything, decodes back to itself with 4 + length bytes consumed |
| Codec.LongStringTruncated | include/raz/serialization.hpp:130-133 | a string of 2^32 bytes or more comes back as its first (length mod 2^32) bytes |
| Codec.Truncated | examples/serialization/serialization.cpp:28-32 | a truncating write appends a prefix of its bytes that fits in the room left, and all of them when they fit |
| Codec.WriteAll | examples/serialization/serialization.cpp:26-34 | a series of writes keeps the cursor invariant, the mode, the read position and the capacity |
| Codec.WritesInOrder | examples/serialization/serialization.cpp:26-44 | after any series of writes the unread bytes are the old ones followed by as much of the concatenated writes as fit (FIFO) |
| Codec.TruncatedAppend | examples/serialization/serialization.cpp:28-32 | a truncated write of a + b is a truncated write of a followed by one of b into the room left |
| Serialization.Put | include/raz/serialization.hpp:73-74 | serializing appends what fits and succeeds only if the whole encoding fit; mode and capacity stay |
| Serialization.Take | include/raz/serialization.hpp:80-81 | deserializing consumes the decoded bytes and yields the value, or on a short read consumes the rest and fails |
| Serialization.Transfer | include/raz/serialization.hpp:66-87 | one operator() call keeps the cursor invariant, the mode and the capacity |
| Serialization.Serializer.constructor | include/raz/serialization.hpp:53-56 | the serializer builds a fresh, empty buffer in Serialize mode |
| Serialization.Serializer.SetMode | examples/serialization/serialization.cpp:71-74 | switching the mode changes the buffer's mode only |
| Serialization.Serializer.Integer | include/raz/serialization.hpp:63-90 | the buffer and the result are those of Put of the wire bytes when serializing, and of Take of the decoded integer when deserializing |
| Serialization.Serializer.String | include/raz/serialization.hpp:126-147 | the same for strings: the u32 length through the integer path, then the characters |
| Serialization.StringPut | include/raz/serialization.hpp:128-135 | serializing a string is putting its length, failing if that failed, and otherwise putting its characters |
| Serialization.StringTake | include/raz/serialization.hpp:136-144 | deserializing a string is taking a u32 length, then exactly that many bytes, failing on a short read |
| SerialBuffer.Buffer.State | examples/serialization/serialization.cpp:46-50 | the buffer's fields satisfy pos ≤ len ≤ SIZE |
| SerialBuffer.Buffer.constructor | examples/serialization/serialization.cpp:9-14 | a new buffer is in Serialize mode with length and position 0 |
| SerialBuffer.Buffer.SetMode | examples/serialization/serialization.cpp:21-24 | setMode changes the mode and not the data or the cursors |
| SerialBuffer.Buffer.Write | examples/serialization/serialization.cpp:26-34 | write appends min(len, SIZE − length) bytes after the existing ones, returns that count, and leaves the read position and mode alone |
| SerialBuffer.Buffer.Read | examples/serialization/serialization.cpp:36-44 | read returns the next min(len, length − pos) unread bytes in order and advances pos by that many; the data and the mode stay, and there is no mode check |
| Network.PacketBuffer.State | include/raz/network.hpp:95-98 | the buffer's fields satisfy pos ≤ len ≤ SIZE |
| Network.PacketBuffer.constructor | include/raz/network.hpp:38-42 | a new packet buffer has length 0 and read position 0 in its fixed mode |
| Network.PacketBuffer.GetMode | include/raz/network.hpp:44-47 | getMode is the template MODE |
| Network.PacketBuffer.GetSize | include/raz/network.hpp:49-52 | getSize is the number of bytes written |
| Network.PacketBuffer.GetCapacity | include/raz/network.hpp:54-57 | getCapacity is SIZE |
| Network.PacketBuffer.Write | include/raz/network.hpp:59-70 | write throws without any effect on a Deserialize buffer; otherwise it appends min(len, SIZE − length) bytes and returns that count, leaving the read position alone |
| Network.PacketBuffer.Read | include/raz/network.hpp:72-83 | read throws without any effect on a Serialize buffer; otherwise it returns the next min(len, length − pos) bytes and advances pos, leaving the data alone |
| Network.TailOkIsDefault | include/raz/network.hpp:113-117 | Tail::ok() holds exactly for the default Tail, n = 0 |
| SerializationExample.EncodeFoo | examples/serialization/serialization.cpp:58-62 | a Foo goes out as its user string, then its age: 8 + length bytes |
| SerializationExample.DecodeFoo | examples/serialization/serialization.cpp:58-62 | decoding a Foo never consumes more bytes than are available |
| SerializationExample.FooRoundTrip | examples/serialization/serialization.cpp:58-62 | a Foo, followed by anything, decodes back to itself |
| SerializationExample.FooPut | include/raz/serialization.hpp:149-154 | serializing a composite is serializer(user)(age): putting user, and age only if that succeeded |
| SerializationExample.FooTake | include/raz/serialization.hpp:149-154 | deserializing a Foo is taking user, and then age from where user ended |
| SerializationExample.AgeTake | examples/serialization/serialization.cpp:61 | once user is taken, age is taken from the bytes right after it |
| SerializationExample.Visit | include/raz/serialization.hpp:149-154 | the buffer and result of serializer(foo) are those of encoding or decoding Foo field by field |
| SerializationExample.BufferRoundTrip | examples/serialization/serialization.cpp:65-80 | for any Foo that fits, serializing it, switching the mode and deserializing from the same buffer gives it back |
| SerializationExample.RazzieRoundTrip | examples/serialization/serialization.cpp:65-80 | main's foo_dest is {"razzie", 99} after the round trip through a Buffer<1024> |
| SerializationExample.RazziePayload | examples/serialization/serialization.cpp:68-72 | with conversion on, Foo{"razzie", 99} is 0 0 0 6, "razzie", 0 0 0 99 on every host |
| SerializationExample.SmallFooPayload | examples/serialization/serialization.cpp:58-62 | with conversion on, a short user and a small age go out as length, user bytes, age, big-endian |
| SerializationExample.SmallWordOnWire | include/raz/serialization.hpp:68-73 | with conversion on, a 32-bit value below 256 is three zero bytes and then itself |
| Memory.ChunksFor | include/raz/memory.hpp:55 | every request needs at least one chunk |
| Memory.ChunksForIsCeiling | include/raz/memory.hpp:55 | for bytes ≥ 1 the chunk count is ceil(bytes / ALIGNMENT) |
| Memory.ZeroBytesAsksTooMuch | include/raz/memory.hpp:55 | bytes = 0 wraps around and asks for more chunks than the pool holds |
| Memory.ZeroRequestFails | include/raz/memory.hpp:55-80 | allocate(0) finds no run, so it throws bad_alloc whatever the pool holds |
| Memory.FirstFitFrom | include/raz/memory.hpp:59-78 | the lowest position from p on with k free chunks, or None when there is none |
| Memory.FirstFit | include/raz/memory.hpp:59-78 | the lowest position with k consecutive free chunks, and None exactly when no such run exists |
| Memory.FirstFitIs | include/raz/memory.hpp:59-78 | a free run with no free run below it is the first fit |
| Memory.FirstFitInside | include/raz/memory.hpp:70 | the region handed out, offset to offset + chunks·ALIGNMENT, lies inside SIZE |
| Memory.MarkRun | include/raz/memory.hpp:66-91 | exactly the chunks of the run get the new state; every other chunk keeps its state |
| Memory.MarkRunStep | include/raz/memory.hpp:66-69 | marking one more chunk extends the run by that chunk |
| Memory.AllocateThenDeallocate | include/raz/memory.hpp:66-91 | setting and then unsetting the same free run restores the bitmap |
| Memory.ScanStep | include/raz/memory.hpp:59-78 | one iteration over a free chunk extends the current run (and finishes it at k chunks) or restarts the run there |
| Memory.ScanExtends | include/raz/memory.hpp:61-63 | a free chunk adjacent to the current run extends it, and nothing below fits |
| Memory.ScanRestarts | include/raz/memory.hpp:73-77 | a free chunk after a gap starts a new run of one chunk |
| Memory.ScanDone | include/raz/memory.hpp:78-80 | when the free chunks run out without a match, no run of k free chunks exists |
| Memory.NothingFree | include/raz/memory.hpp:52-53 | with no free chunk, no request fits |
| Memory.FindRun | include/raz/memory.hpp:48-80 | the free-chunk scan of allocate returns exactly the first fit |
| Memory.MemoryPool.constructor | include/raz/memory.hpp:36-44 | SIZE is a multiple of ALIGNMENT and every chunk starts out free |
| Memory.MemoryPool.Allocate | include/raz/memory.hpp:46-81 | bad_alloc and no change when no run fits; otherwise the offset of the first-fit run, whose chunks alone become used |
| Memory.MemoryPool.Deallocate | include/raz/memory.hpp:83-92 | exactly the chunks covering the region become free |
| Memory.MemoryPool.Mark | include/raz/memory.hpp:66-91 | the set/unset loop marks exactly chunks start .. start + count − 1 |
| Bits.AllFalse | examples/bitset/bitset.cpp:146 | a default bitset has no bit set |
| Bits.PositionsFrom | examples/bitset/bitset.cpp:128-136 | the positions with a given bit, ascending, all of them and only them |
| Bits.TrueBits | examples/bitset/bitset.cpp:113-130 | truebits() visits exactly the set positions, in ascending order |
| Bits.FalseBits | examples/bitset/bitset.cpp:98-105 | falsebits() visits exactly the clear positions, in ascending order |
| Bits.BetweenPositions | examples/bitset/bitset.cpp:128-136 | a position strictly between two consecutive visited positions has the other bit value |
| Bits.FirstFalseBit | examples/bitset/bitset.cpp:98-105 | the first clear position is the first one falsebits() visits |
| Bits.CountsAddUp | examples/bitset/bitset.cpp:146-166 | the set and clear positions together number N |
| Bits.SetCount | examples/bitset/bitset.cpp:105-126 | setting a clear bit raises the true count by one |
| Bits.UnsetCount | examples/bitset/bitset.cpp:111-126 | unsetting a set bit lowers the true count by one |
| Bits.SameAbove | examples/bitset/bitset.cpp:128-136 | the positions from p on depend only on the bits from p on |
| Bits.AscendingUnique | examples/bitset/bitset.cpp:128-136 | two ascending lists with the same members are equal |
| Bits.PositionsAre | examples/bitset/bitset.cpp:128-136 | the iteration is the unique ascending list of the positions with that bit |
| BitsetExample.Visible | examples/bitset/bitset.cpp:76-136 | iteration yields the elements of the occupied slots in ascending slot order |
| BitsetExample.VisibleMembers | examples/bitset/bitset.cpp:128-136 | an element is visited exactly when some occupied slot holds it |
| BitsetExample.FirstMatchFrom | examples/bitset/bitset.cpp:113-119 | the first occupied slot from a position on that holds t, or None when none does |
| BitsetExample.FirstMatch | examples/bitset/bitset.cpp:113-119 | the lowest occupied slot holding t, and None exactly when no occupied slot holds t |
| BitsetExample.FirstMatchIs | examples/bitset/bitset.cpp:113-119 | an occupied slot holding t with no such slot below it is the first match |
| BitsetExample.LowestFreeSlot | examples/bitset/bitset.cpp:98-105 | add's slot is free and every lower slot is occupied |
| BitsetExample.FullIffNoFreeSlot | examples/bitset/bitset.cpp:100-103 | falsebits() is empty exactly when every slot is occupied |
| BitsetExample.Container.constructor | examples/bitset/bitset.cpp:93 | a new container has every slot free |
| BitsetExample.Container.Contents | examples/bitset/bitset.cpp:128-136 | the container iterates one element per occupied slot |
| BitsetExample.Container.Count | examples/bitset/bitset.cpp:123-126 | count is the number of elements iterated, and count plus free slots is N |
| BitsetExample.Container.Add | examples/bitset/bitset.cpp:96-109 | false and no change when full; otherwise t goes into the lowest free slot, which alone becomes occupied, and count rises by one |
| BitsetExample.Container.Remove | examples/bitset/bitset.cpp:111-121 | the lowest occupied slot holding t, if any, is freed and count drops by one; nothing else changes |
| BitsetExample.FindInUsed | examples/bitset/bitset.cpp:113-120 | the loop over truebits() stops at exactly the first match |
| BitsetExample.NoMatchBelow | examples/bitset/bitset.cpp:113-119 | once the first j occupied slots are checked, no occupied slot below the next one holds t |
| BitsetExample.AddToLowestFree | examples/bitset/bitset.cpp:96-109 | an add into a container whose lowest free slot is k writes slot k |
| BitsetExample.AddDemoElements | examples/bitset/bitset.cpp:170-175 | adding 7, 99, 123, −50 to an empty container fills slots 0 .. 3 in that order |
| BitsetExample.OneToThreeOccupied | examples/bitset/bitset.cpp:176-182 | with slots 1, 2 and 3 occupied, truebits() is 1, 2, 3 |
| BitsetExample.OneToThreeVisible | examples/bitset/bitset.cpp:176-182 | with slots 1, 2 and 3 occupied, iteration yields their elements in slot order |
| BitsetExample.ContainerDemo | examples/bitset/bitset.cpp:169-183 | after the adds and remove(7), the container shows 99, 123, −50 |
| BitsetExample.BitsetDemo | examples/bitset/bitset.cpp:146-166 | after set(1, 6, 22, 23, 24), truebits is exactly those in order and falsebits the other 27, in ascending order |
| Hash.SignedChar | include/raz/hash.hpp:39 | a char added to the accumulator is the byte read as a signed value |
| Hash.BeforeNul | include/raz/hash.hpp:39 | the characters up to the first NUL: a NUL-free prefix that stops at the NUL |
| Hash.EmptyIsSeed | include/raz/hash.hpp:37-39 | the empty string hashes to the seed, 5381 by default |
| Hash.HashStep | include/raz/hash.hpp:39 | each non-NUL character c turns h into h·33 + c modulo 2^64 |
| Hash.FoldFront | include/raz/hash.hpp:39 | the step fold consumes its first character first |
| Hash.HashIsFold | include/raz/hash.hpp:37-40 | the hash is a left fold of the step over the characters before the first NUL |
| Hash.AfterNulIgnored | include/raz/hash.hpp:39 | whatever follows a NUL does not affect the hash |
| Hash.Concatenation | include/raz/hash.hpp:37-40 | hash(s ++ t, h) = hash(t, hash(s, h)) for NUL-free s |
| Hash.StringHashIsHash | include/raz/event.hpp:99-102 | Event::stringhash agrees with raz::hash on every string and seed |
| Cmdline.ConvertArgsSucceeds | include/raz/cmdline.hpp:109-124 | converting n arguments from pos succeeds exactly when n arguments are there, and yields them in order |
| Cmdline.GetCmdArgs | include/raz/cmdline.hpp:95-107 | getCmdArgs takes the next min(arity, remaining) tokens, in order, and leaves the iterator after them |
| Cmdline.CallStep | include/raz/cmdline.hpp:184-188 | a command whose arguments convert makes its call, and scanning resumes right after its arguments |
| Cmdline.SkipOneMore | include/raz/cmdline.hpp:179-183 | an unknown token in front of a described scan is skipped |
| Cmdline.RunDescribed | include/raz/cmdline.hpp:173-190 | every parse is described by its calls: skipped unknown tokens, each command followed by exactly its arguments, in token order, failing only at a command short of arguments |
| Cmdline.DescribedIsRun | include/raz/cmdline.hpp:173-190 | conversely, a description of calls and failure determines the parse |
| Cmdline.SkippedDescribes | include/raz/cmdline.hpp:179-183 | a description at an unknown token describes the scan from the next token |
| Cmdline.CallDescribes | include/raz/cmdline.hpp:184-188 | a description at a command token starts with that command's call and describes the rest after its arguments |
| Cmdline.FailureDescribes | include/raz/cmdline.hpp:184-188 | a description with no calls at a command token is a failure there |
| Cmdline.CommandLineParser.constructor | include/raz/cmdline.hpp:171 | a new parser has no commands |
| Cmdline.CommandLineParser.AddCommand | include/raz/cmdline.hpp:42-46 | emplace adds a new name and never replaces a registered one |
| Cmdline.CommandLineParser.Parse | include/raz/cmdline.hpp:173-190 | parse's outcome is the described run over the tokens |
| Cmdline.ParseTokens | include/raz/cmdline.hpp:173-190 | the scan loop computes the run |
| Cmdline.NoCommandsNoCalls | include/raz/cmdline.hpp:179-183 | with no registered token, nothing is called and nothing fails |
| Cmdline.ZeroArityTakesNothing | include/raz/cmdline.hpp:95-107 | a zero-arity command consumes no following token |
| Cmdline.ShortCommandFails | include/raz/cmdline.hpp:117-121 | a command with fewer tokens left than its arity fails with out_of_range |
| Input.ButtonInput | include/raz/input.hpp:210-226 | a button event's Input has the event type, the button and the device ID, and default fields otherwise |
| Input.AfterPress | include/raz/input.hpp:202-208 | a press moves Pressed to Hold and any other state to Pressed |
| Input.DownIffPressedOrHold | include/raz/input.hpp:191-195 | isButtonDown holds exactly for Pressed and Hold |
| Input.PressDownReleaseUp | include/raz/input.hpp:202-220 | after a press the button is down, and after a release it is up |
| Input.InputDevice.constructor | include/raz/input.hpp:175-179 | a device starts with the given ID and button states |
| Input.InputDevice.IsButtonDown | include/raz/input.hpp:191-195 | isButtonDown is the state's Pressed or Hold bit |
| Input.InputDevice.Press | include/raz/input.hpp:202-215 | a press changes only that button's state, to AfterPress, and returns its Input |
| Input.InputDevice.Release | include/raz/input.hpp:217-227 | a release sets only that button to Released and returns its Input |
| Input.DefaultButtonAction | include/raz/input.hpp:74-87 | with the default mask, a button action matches presses of its own button and no release or other button |
| Input.AxisZeroMatchesButtonEvents | include/raz/input.hpp:107-110 | an axis action on axis 0 matches every button event, whose axis field stays 0 |
| Input.CombinatorLaws | include/raz/input.hpp:319-385 | &&, \|\| and ! match by conjunction, disjunction and negation, so De Morgan and double negation hold |
| Input.MatchIgnoresDispatchFields | include/raz/input.hpp:84-87 | only an Input's type, button and axis decide a match |
| Input.HandlerChain | include/raz/input.hpp:297-307 | the first handler always runs; later ones run in order only while the Input is unhandled; only the handled flag changes |
| Input.Least | include/raz/input.hpp:282 | the least id of a non-empty id set |
| Input.LeastExists | include/raz/input.hpp:282 | every non-empty set of ids has a least element |
| Input.AscendingIds | include/raz/input.hpp:282-287 | the std::map visits exactly its ids, in ascending order |
| Input.TryFromMatches | include/raz/input.hpp:285-295 | every handler call is for a bound action that matches the Input, with input.action set to that action's id |
| Input.TryFromComplete | include/raz/input.hpp:285-295 | every bound action that matches the Input gets it: with at least one handler, handler 0 is called on the Input tagged with that action's id, even when an earlier action handled it |
| Input.TryFromOrdered | include/raz/input.hpp:285-295 | the handler calls come in ascending action-id order |
| Input.AboveFirst | include/raz/input.hpp:287 | calls for later ids are above the current id |
| Input.ConcatAscending | include/raz/input.hpp:287-293 | one action's calls, then higher ids' calls, stay ascending |
| Input.MatchesTagged | include/raz/input.hpp:289-292 | tagging a matching Input with an action id keeps it matching |
| Input.ActionMap.constructor | include/raz/input.hpp:282 | a new action map has no actions |
| Input.ActionMap.Bind | include/raz/input.hpp:262-265 | bind sets the action for the id, overwriting any earlier one |
| Input.ActionMap.Unbind | include/raz/input.hpp:267-270 | unbind erases the id and nothing else |
| Input.ActionMap.TryActions | include/raz/input.hpp:285-295 | the handler calls are those of trying every action in ascending id order; they are ordered by id; each is for a bound action matching the Input; and every matching action gets the first handler's call |
| Input.ActionMap.ButtonEvent | include/raz/input.hpp:272-278 | the device updates only that button and its Input goes to tryActions |
| Input.TryEach | include/raz/input.hpp:287-294 | the loop over the actions makes the calls of the recursive description |
| Callbacks.RemoveFirst | include/raz/callback.hpp:86-97 | removing a callback that is absent changes nothing; otherwise the list shrinks by one |
| Callbacks.RemoveFirstAt | include/raz/callback.hpp:89-95 | only the first occurrence is erased; the others keep their order |
| Callbacks.RemoveFirstSkips | include/raz/callback.hpp:89-95 | entries before the first occurrence are kept |
| Callbacks.RemoveFirstMultiset | include/raz/callback.hpp:86-97 | the list loses exactly one copy of the callback, if it had one |
| Callbacks.BindUnbind | include/raz/callback.hpp:80-97 | binding a new callback and unbinding it restores the list |
| Callbacks.Callback.constructor | include/raz/callback.hpp:38-44 | constructing a Callback appends it to its system's list |
| Callbacks.Callback.Destroy | include/raz/callback.hpp:46-49 | destroying a Callback removes its first occurrence from the list |
| Callbacks.CallbackSystem.constructor | include/raz/callback.hpp:76 | a new system has no callbacks |
| Callbacks.CallbackSystem.Bind | include/raz/callback.hpp:80-84 | bind appends the callback at the end |
| Callbacks.CallbackSystem.Unbind | include/raz/callback.hpp:86-97 | unbind removes the first occurrence only, or nothing when the callback is absent |
| Callbacks.CallbackSystem.Handle | include/raz/callback.hpp:65-72 | every registered callback receives the event once, in registration order |
| Callbacks.CallbackLifetime | include/raz/callback.hpp:38-49 | a Callback that is constructed and then destroyed leaves the list as it was |
| Stream.HexDigitsSpelled | include/raz/stream.hpp:186 | the digit table maps n to the n-th lowercase hex digit |
| Stream.HexPair | include/raz/stream.hpp:190-192 | each byte becomes two characters from "0123456789abcdef" |
| Stream.HexString | include/raz/stream.hpp:186-193 | hex emits exactly 2·sizeof(T) characters, all hex digits |
| Stream.DigitValue | include/raz/stream.hpp:186 | reading a hex digit back gives a value below 16 |
| Stream.PairRoundTrip | include/raz/stream.hpp:190-192 | a byte's two digits are b / 16 and b − 16·(b / 16) |
| Stream.PairReadsBack | include/raz/stream.hpp:190-192 | the two digits written for a byte read back as that byte |
| Stream.HexRoundTrip | include/raz/stream.hpp:186-193 | the dump reads back to the bytes, in memory order |
| Stream.HexInjective | include/raz/stream.hpp:186-193 | the output determines the bytes |
| Stream.Hex | include/raz/stream.hpp:180-198 | the hex loop produces the dump |
| Stream.FlagsOf | include/raz/stream.hpp:236-244 | '+' sets showpos, '-' sets left and '0' sets internal, and nothing else sets them |
| Stream.FlagsEnd | include/raz/stream.hpp:232-256 | the flag loop stops at the first character that is not a flag character |
| Stream.DigitsEnd | include/raz/stream.hpp:257-268 | digit runs stop at the first non-digit |
| Stream.FlagRunStep | include/raz/stream.hpp:232-256 | each flag character adds its flags, and records '#' and '0' |
| Stream.ScanFlags | include/raz/stream.hpp:224-256 | the flag loop yields the flags, the fill ('0' with a '0' flag, ' ' otherwise) and the alternate form of the run it passes |
| Stream.ScanDigits | include/raz/stream.hpp:257-268 | the digit loops stop after the digit run |
| Stream.ConversionFlags | include/raz/stream.hpp:269-308 | a conversion letter is accepted exactly when it is one of d x X o f e E g G; '#' with x, X or o sets showbase; X, E and G set uppercase |
| Stream.OctalIsHex | include/raz/stream.hpp:282-285 | as written, 'o' sets the hex base, the same flags as 'x', and never oct |
| Stream.IntendedConversionFlags | include/raz/stream.hpp:269-308 | the same acceptance, showbase and uppercase rules, with 'o' setting oct; every other letter is as written |
| Stream.IntendedBases | include/raz/stream.hpp:271-285 | 'd' sets only the decimal base, 'x' only hex, and 'o' only oct |
| Stream.LetterFlags | include/raz/stream.hpp:269-308 | under either letter table, the accepted letters are d x X o f e E g G, with the same showbase and uppercase rules, and every letter other than 'o' sets the flags of the source |
| Stream.ReadSpec | include/raz/stream.hpp:224-310 | the specification scan computes the accepted spec, or the rejection; with the AsWritten table these are the source's flags, 'o' included |
| Stream.ConversionPos | include/raz/stream.hpp:257-268 | the conversion letter stands at or after the start |
| Stream.Format | include/raz/stream.hpp:200-328 | format's loop computes the text and the applied spec of the recursive description, for the letter table given; the source is the AsWritten instance |
| Stream.LiteralsCopied | include/raz/stream.hpp:209-213 | a format without '%' is copied unchanged and applies nothing |
| Stream.LiteralTail | include/raz/stream.hpp:209-213 | a tail without '%' is copied unchanged |
| Stream.EscapedPercent | include/raz/stream.hpp:214-221 | "%%" emits a single '%' |
| Stream.RejectedSpecDropsPercent | include/raz/stream.hpp:305-320 | after a rejected specification scanning resumes after the '%', which is dropped, and the rest is copied |
| Stream.FlagsEndIs | include/raz/stream.hpp:232-256 | the flag loop stops at exactly the first non-flag character |
| Stream.DigitsEndIs | include/raz/stream.hpp:257-268 | a digit loop stops at exactly the first non-digit |
| Stream.ScanSpecAccepts | include/raz/stream.hpp:224-319 | a spec whose conversion letter ends the string is applied with its flags, width, precision and fill; under AsWritten the letter's flags are the source's, so 'o' gives hex |
| Stream.SpecSyntax | include/raz/stream.hpp:224-319 | flags, then width digits, then '.' and precision digits, then a conversion letter at the end, give those flags (the letter's from the table given, the source's under AsWritten), that width, that precision and the fill |
| Stream.DefaultSpec | include/raz/stream.hpp:227-230 | a bare conversion letter gets width 0, precision 6, fill ' ' and only the letter's flags |
| Stream.AppliedOnlyAtEnd | include/raz/stream.hpp:309-311 | a spec is applied only if the string ends right after its conversion letter, which is one of d x X o f e E g G |
| Stream.Apply | include/raz/stream.hpp:311-319 | applying a spec clears the adjust, base and float fields, sets the spec's flags, and sets width, precision and fill |
| Stream.ApplyIdempotent | include/raz/stream.hpp:311-319 | applying the same spec twice is applying it once |
| Stream.OctalFormatIsHex | include/raz/stream.hpp:282-285 | as written, format("%o") applies the hex base with width 0, precision 6 and fill ' ', and not oct |
| Stream.OctalFormatIsOct | include/raz/stream.hpp:282-285 | with the corrected table, format("%o") applies the oct base and not hex |

## Left out

- Float and double serialization (include/raz/serialization.hpp:92-124) is floating point over `pack754_32`/`unpack754_32`, which live in a header that is not part of this model.
- `Packet<MODE, SIZE>` is a `Serializer` over a `PacketBuffer` built by inheritance. The serializer is modelled over the example `Buffer` only; `PacketBuffer` is modelled on its own.
- networkbackend.hpp, thread.hpp and logger.hpp are sockets, threads, mutexes, clocks and console or file output.
- event.hpp's serialize helpers depend on a header that is not part of this model. Only its `stringhash` is modelled.
- The mutex of `CallbackSystem` is not modelled; only the list operations are. Handlers are opaque ids, and `handle` returns the list of deliveries it makes instead of calling them.
- Axis events of `InputDevice` (include/raz/input.hpp:197-200, 229-243), `getID` and axis values are floating point. An `Input` keeps only its type, button, axis, device, action and handled fields.
- Input.InputDevice.constructor: the initial button states are a constructor parameter. The source leaves them uninitialised. A keyboard with more than 256 buttons keeps them in a `std::map`; here it is an array of the given length.
- The `_action` literal (include/raz/input.hpp:312-315), a hash cast to 32 bits, is not modelled.
- `Allocator<T>` (include/raz/memory.hpp:99-149) only forwards to the pool.
- Pool addresses are byte offsets into the pool's memory, not pointers.
- Memory.ChunksFor: the `+ 1` after the wrapped division is not reduced modulo 2^64. This differs from the source only for ALIGNMENT = 1 and bytes = 0, where the source gets 0 chunks. allocate throws bad_alloc either way, because the scan's run length starts at 1 and never returns to 0.
- Memory.MemoryPool.Deallocate: requires bytes ≥ 1 and a region inside the pool. With bytes = 0 the chunk count wraps, and the source's loop unsets bits past the end of the bitmap.
- The `Bitset` class itself is not modelled. It is represented by a `seq<bool>` with its ascending `truebits`/`falsebits` views.
- BitsetExample.Container.constructor: the initial element values are a parameter; `std::array` leaves them uninitialised.
- Argument conversion in the command-line parser (stringstream `>>` into each parameter type, include/raz/cmdline.hpp:117-124) and `std::invoke` are not modelled. Arguments stay strings, and callables are opaque ids.
- The iostream and locale wrappers of stream.hpp are not modelled: `OstreamManipulator`, stream inserters and extractors, `lexical_cast`, `delimiter`, `next` and `parse`.
- `hex` takes the object representation of its argument as bytes in memory order.
- `format` writes to a stream. Here it returns the text written and the specification applied, if any. The uninitialised `flags` local starts empty, and `atoi` overflow is not modelled.
- Hash.SignedChar: whether `char` is signed is implementation-defined. The model takes it as signed, as on x86. Where `char` is unsigned (ARM Linux, for example) a byte of 128 or more adds its value b rather than b − 256.
- Stream.Format: when a specification reaches the terminator before its conversion letter, for example a trailing lone '%', the source reads one character past the terminator (include/raz/stream.hpp:309-310). The model's result is None for such a string, not a value.

## Findings

| source | as written | input that shows it | evidently intended | confidence | as-written member | corrected member |
|---|---|---|---|---|---|---|
| include/raz/stream.hpp:282-285 | the 'o' conversion sets `std::ios::hex` | `format("%o")`: the stream is set to the hex base, the same flags as `"%x"` | 'o' sets `std::ios::oct` | high; not executed | Stream.OctalFormatIsHex | Stream.OctalFormatIsOct |
