# lightplayer tone engine — a Dafny model

This project models the core of the lightplayer light-therapy tone player.
A panel of colour-key buttons maps each button to a fixed tone in hertz.
While a button is held, the application streams a looping PCM sine buffer to
the default audio output. The model covers four parts:

- **Frequency table** (`tone_table.dfy`, module `ToneTable`): the 36
  colour-key constants. There are twelve bands, each with a down-octave, a
  base and an up-octave button.
- **PCM buffer layout** (`pcm_layout.dfy`, module `PcmLayout`):
  `Generator::generateData`. It computes the byte length from the format and
  duration, walks the buffer frame by frame, and writes each frame's sample
  code into every channel slot. 8-bit codes take one byte. 16-bit codes are
  written little- or big-endian.
- **Looping byte source** (`looping_source.dfy`, module `LoopingSource`): the
  `Generator` device, a byte buffer plus a cursor `m_pos`. `readData` copies
  wrapped chunks until exactly `len` bytes are delivered. The module also
  covers `start`, `stop`, `writeData` and the constructor.
- **Playback control** (`playback.dfy`, module `Playback`):
  - `toggleSuspendResume`, a four-way table over the sink state.
  - `createAudioOutput`: tear down the old session, build a new one, start it and toggle once.
  - The 36 press handlers and 36 release handlers, modelled as one `Handle` over a `Button`.

`arith.dfy` and `bytes.dfy` hold the helper facts: Euclidean division, and
repetition of a sequence.

The `Generator` object is modelled as an immutable value,
`Generator(buffer, pos, isOpen)`. Each operation returns the state it leaves
behind. `ReadData` is a method whose loop is the source's copy loop. It is
proved equal to `Read`, a function that states the read's result directly as
the buffer tiled from the cursor. `GenerateData` is a method whose nested
loops follow the source's frame and channel loops. Its result is proved equal
to `Frames`, which lays out frame `i` as the code for phase index
`i % sampleRate`, repeated once per channel.

The sine and its quantisation are floating point, so they are a parameter:
`code: nat -> int` gives the integer that the source's `static_cast`
produces for a phase index. That integer is then stored modulo 2^8 or
2^16, written out explicitly.

The audio sink is also a parameter. `Sink(initial, react)` gives the state a
new sink reports and the state it reports after each command.
`IdealSink` is one instance, which obeys every command at once.

Some behaviour of the code is easy to misread, so the model makes it explicit:

- The length formula divides by `100000`. A one-second session
  (`DurationSeconds * 1000000` µs) therefore gets ten seconds of frames:
  882000 bytes for 44100 Hz, mono, 16-bit (`PcmLayout.DefaultSessionLength`).
  The phase index wraps on the sample rate, so that buffer is ten copies of
  the one-second buffer (`PcmLayout.SessionBufferIsTenSeconds`). Looping over
  it delivers the same stream as looping over one second
  (`LoopingSource.RepeatedBufferStreamsAlike`).
- `start()` only opens the device. It leaves the cursor where it is and opens
  an empty buffer as readily as a full one. Only `stop()` rewinds
  (`LoopingSource.Start`, `LoopingSource.Stop`).
- A width/signedness pair without a branch writes nothing, and the write
  pointer still advances (`PcmLayout.GenerateData`, `PcmLayout.WriteSlot`).
- A format whose rate or channel count is zero, or whose sample size is below
  8 bits, gets a length of zero, so the frame loop never runs and the buffer is
  empty (`PcmLayout.BufferLength`, `PcmLayout.GenerateData`).
- The header declares twelve colour bands with three octave steps each, so
  there are 36 buttons (`ToneTable.AllButtons`).

## Model

| member | source | states |
|---|---|---|
| `ToneTable.UpHz` | src/lightplayer.h:66-121 | Every up-octave constant is exactly twice its band's base constant. |
| `ToneTable.DownHz` | src/lightplayer.h:68-123 | Every down-octave constant is its base halved and rounded up, so twice the down tone is the base or the base plus one. |
| `ToneTable.BaseHz` | src/lightplayer.h:67-122 | Every base constant lies in 370..700. |
| `ToneTable.ToneHz` | src/lightplayer.h:66-123 | Every button's tone lies in 185..1400. |
| `ToneTable.OddBases` | src/lightplayer.h:77-108 | Only 415, 523 and 587 are odd bases; their down tones round up to 208, 262 and 294. |
| `ToneTable.BaseIncreasing` | src/lightplayer.h:67-122 | Base constants strictly increase in declaration order from infrared/red to ultraviolet/violet. |
| `ToneTable.OctavesSeparated` | src/lightplayer.h:66-123 | Every down tone is below every base tone, and every base tone is below its band's up tone. |
| `ToneTable.ToneHzInjective` | src/lightplayer.h:66-123 | No two of the 36 buttons share a frequency. |
| `ToneTable.AllButtons` | src/lightplayer.h:130-224 | There are exactly 36 buttons, twelve bands of three octave steps. The list holds each of them once, at its own index. |
| `PcmLayout.SessionLength` | src/lightplayer.cpp:63-66 | At the fixed 1000000 µs duration the length is `10 * sampleRate * frameBytes`, a whole number of frames, so the `Q_ASSERT` always holds. |
| `PcmLayout.DefaultSessionLength` | src/lightplayer.cpp:127-132 | The start-up format (44100 Hz, mono, 16-bit signed, little-endian) gives 882000 bytes and meets every precondition of the layout. |
| `PcmLayout.ChannelBytes` | src/lightplayer.cpp:60 | The bytes per channel slot are never negative, and are positive exactly when a sample is at least 8 bits wide. |
| `PcmLayout.FrameBytes` | src/lightplayer.cpp:60-61 | The bytes per frame are never negative, and are positive exactly when there is a channel and a sample is at least one whole byte wide. |
| `PcmLayout.BytesPerSecond` | src/lightplayer.cpp:63 | The bytes per second are never negative, and are positive exactly when rate, channel count and whole bytes per slot are all positive. |
| `PcmLayout.BufferLength` | src/lightplayer.cpp:63-64 | The length is never negative, and is zero unless rate, channel count and whole bytes per slot are all positive. |
| `PcmLayout.GenerateData` | src/lightplayer.cpp:58-101 | The buffer has the computed length, and the pointer walks exactly `length / frameBytes` frames. A format with a zero rate or channel count, or a sample size below 8 bits, gets an empty buffer. A supported format yields the frame layout. An unsupported one leaves the buffer's unspecified contents untouched. |
| `PcmLayout.WalkFrames` | src/lightplayer.cpp:73-100 | For a buffer that is a whole number of frames, the frame loop writes exactly that many frames. A supported format gets the frame layout, and an unsupported one is left unchanged. |
| `PcmLayout.FillFrame` | src/lightplayer.cpp:75-98 | The channel loop advances the pointer by one frame. It writes the frame's slot into every channel for a supported format, writes nothing otherwise, and touches no byte outside the frame. |
| `PcmLayout.WriteSlot` | src/lightplayer.cpp:76-94 | The branch chain writes the slot encoding for the four supported width/signedness pairs and leaves the buffer unchanged for every other pair. |
| `PcmLayout.Slot` | src/lightplayer.cpp:76-93 | A slot is `sampleSize / 8` bytes: one for 8-bit, two for 16-bit samples. What the bytes mean, the code modulo 2^width in the format's byte order, is stated by `PcmLayout.SlotWraps` and `PcmLayout.SlotRoundTrip`. |
| `PcmLayout.FrameAt` | src/lightplayer.cpp:73-100 | Frame `i` of the buffer is the frame for phase index `i % sampleRate`. |
| `PcmLayout.SlotAt` | src/lightplayer.cpp:74-98 | All `channelCount` slots of a frame hold identical bytes: the encoding of that frame's one sample code. |
| `PcmLayout.FramesRepeatEverySampleRate` | src/lightplayer.cpp:74 | Frames one sample rate apart are byte-for-byte equal. |
| `PcmLayout.SessionBufferIsTenSeconds` | src/lightplayer.cpp:63-74 | The session buffer of a supported format is ten copies of the one-second buffer. |
| `PcmLayout.SlotWraps` | src/lightplayer.cpp:76-93 | A slot read back in the format's byte order gives the code modulo 2^width. For 16-bit codes the low byte comes first for little endian and the high byte first for big endian. |
| `PcmLayout.SlotRoundTrip` | src/lightplayer.cpp:76-93 | Decoding a slot in the format's order and signedness gives back every code the format can represent. |
| `LoopingSource.ReadData` | src/lightplayer.cpp:103-115 | An empty buffer or `len <= 0` gives 0 bytes and leaves the cursor alone. Otherwise the result is exactly `len` bytes, byte `k` is `buffer[(pos0 + k) % size]`, the cursor ends at `(pos0 + len) % size` and stays in range. |
| `LoopingSource.CopyChunks` | src/lightplayer.cpp:105-112 | The copy loop ends with exactly `max(len, 0)` bytes of the buffer tiled from the cursor, and with the cursor that many bytes further on modulo the size. With `len <= 0` nothing is copied and the cursor stays put. |
| `LoopingSource.Read` | src/lightplayer.cpp:103-115 | A read keeps the cursor invariant and the buffer, and delivers 0 or exactly `len` bytes. |
| `LoopingSource.ReadConcat` | src/lightplayer.cpp:107-112 | Two consecutive reads deliver the same bytes, and leave the same cursor, as one read of the combined length. |
| `LoopingSource.ReadWholeBuffer` | src/lightplayer.cpp:107-112 | A read of one buffer length returns the buffer rotated to the cursor and leaves the cursor where it was. |
| `LoopingSource.ReadTiles` | src/lightplayer.cpp:107-112 | From the buffer's start, a read of `m` buffer lengths returns `m` copies of the buffer. |
| `LoopingSource.RepeatedBufferStreamsAlike` | src/lightplayer.cpp:107-112 | Looping over `m` copies of a buffer yields the same stream as looping over the buffer itself. |
| `LoopingSource.Start` | src/lightplayer.cpp:47-50 | `start()` opens the device and leaves the buffer and cursor unchanged. |
| `LoopingSource.Stop` | src/lightplayer.cpp:52-56 | `stop()` closes the device and sets the cursor to 0. |
| `LoopingSource.StartTwice` | src/lightplayer.cpp:47-50 | A second `start()` with no read in between changes nothing that a read delivers. |
| `LoopingSource.RestartReplays` | src/lightplayer.cpp:47-56 | After a stop/start cycle, a read of up to one buffer length returns the buffer's first bytes, however far earlier reads advanced. |
| `LoopingSource.WriteData` | src/lightplayer.cpp:117-123 | `writeData` returns 0 and leaves buffer, cursor and open state unchanged. |
| `LoopingSource.WriteLeavesStream` | src/lightplayer.cpp:117-123 | A write between reads does not change what a read delivers. |
| `LoopingSource.NewGenerator` | src/lightplayer.cpp:31-40 | A new generator has its cursor at 0 and is not open. An invalid format leaves the buffer empty. A valid format gives the computed length. For a supported format the buffer holds the frame layout, and for an unsupported one it keeps its unspecified contents. |
| `Playback.ToggleCall` | src/lightplayer.cpp:153-164 | Suspended and Stopped lead to `resume`, Active leads to `suspend`, and Idle leads to no call: at most one sink method per toggle. |
| `Playback.ToggleSuspendResume` | src/lightplayer.cpp:153-164 | A toggle records the state it read and makes exactly the call the table gives for that state. The state it leaves is what the sink reports after that call. In Idle it makes no call and the state is unchanged. |
| `Playback.RebuildTrace` | src/lightplayer.cpp:143-149 | The rebuild is six steps, each rebuild step exactly once, in phase order, with no toggle among them. |
| `Playback.PhaseOrderMeaning` | src/lightplayer.cpp:143-150 | A trace in phase order tears down before it builds. It constructs the generator before starting it and the output before starting it, starts the generator before the sink, and starts the sink before any toggle. |
| `Playback.AppendToggle` | src/lightplayer.cpp:148-150 | Appending a toggle that follows the table to a trace in phase order keeps the trace in phase order and following the table, and adds exactly one toggle. |
| `Playback.RebuildThenToggle` | src/lightplayer.cpp:143-150 | The rebuild followed by one table-following toggle is seven steps in phase order, with exactly one toggle, in last place. |
| `Playback.CreateAudioOutput` | src/lightplayer.cpp:141-151 | The trace holds the six rebuild steps, each exactly once: both deletes, the generator built with 1000000 µs and the current tone, the output, and both starts. They come in phase order: deletes, constructions, generator start, sink start. One toggle follows. It reads the state the freshly started sink reports and follows the table, and the resulting state is what the sink reports after that toggle's call. |
| `Playback.Press` | src/lightplayer.cpp:169-174 | A press stores the button's tone. Its trace is the six rebuild steps, deletes first and in phase order, followed by exactly two toggles that follow the table. The first toggle reads the freshly started sink. The second reads the state the first left behind. The player keeps the state after the second toggle's call. |
| `Playback.Release` | src/lightplayer.cpp:187-190 | A release keeps the tone and toggles exactly once, reading the current sink state. The player keeps the state the sink reports after that call. |
| `Playback.Handle` | src/lightplayer.cpp:168-551 | All 36 press handlers select their own tone and toggle twice. All 36 release handlers keep the tone and toggle once. |
| `Playback.LastPressWins` | src/lightplayer.cpp:169-174 | After any sequence of events, the selected tone is the one of the last button pressed. |
| `Playback.PressPlaysReleaseSilences` | src/lightplayer.cpp:141-174 | With an obeying sink, a press first suspends the freshly started sink and then resumes it, so the tone plays. The following release suspends it. |
| `Playback.ReleaseSilences` | src/lightplayer.cpp:187-190 | With an obeying sink, a release while the tone plays leaves the sink Suspended. |
| `Playback.HandleIdeal` | src/lightplayer.cpp:168-551 | With an obeying sink, any press handler leaves the sink Active, and any release handler run while the tone plays leaves it Suspended. |
| `Playback.HeldButtonPlays` | src/lightplayer.cpp:141-190 | With an obeying sink, alternating presses and releases leave the sink Active exactly while a button is held. |

## Left out

- The sine (`qSin`), the `2*M_PI` phase, and the float-to-integer `static_cast` quantisation are floating point. They are the `code` parameter, which gives an integer code per phase index.
- `initializeAudio`'s device check and `nearestFormat` substitution are foreign Qt calls. Any negotiated format is an input to the model; `DefaultFormat` is the requested one.
- The internals of `QAudioOutput` and the platform's asynchronous pulling of the stream are not modelled. The sink is `Sink(initial, react)`. A sink state that changes between controller calls without a command (for example an underrun to Idle) is not modelled.
- `QIODevice::open`/`close` semantics are not modelled. The device is a bare `isOpen` flag, and the gate `QIODevice::read` puts in front of `readData` is not represented.
- The `delete`/`new` memory management and Qt object parenting are not modelled. Only their order is recorded as `Step`s. Deleting a null pointer on the first press is still recorded as a step.
- The UI setup, the `lightPlayer` constructor and destructor, the unused `m_output` and `lightPlayer::m_buffer` fields, and `ui_lightplayer.h` are widget glue. `ui_lightplayer.h` is not part of this model.
- `LoopingSource.ReadData`: the caller's `data` buffer is not modelled. The bytes are returned as a sequence, on the assumption that the caller supplies room for `len` bytes.
- `PcmLayout.GenerateData`: `length` is decremented by one frame after each pass of the channel loop, not by `channelBytes` per slot. The values agree at every frame boundary, which is the only place the loop tests it.
- `PcmLayout.CanLayOut`: no field of the format may be negative, none of the `int` products (rate times channels, then times bytes per slot) nor the `qint64` product may overflow, the length must fit QByteArray's `int` size, and the duration must not be negative. Outside these bounds the source can have undefined behaviour, or its `while (length)` loop can step past zero. Negative fields are not covered even where the source is harmless: a sample size of -7 to -1 truncates to zero bytes per slot in C++, and a release build then lays out an empty buffer. The `Q_ASSERT` that the length is a whole number of frames is also required whenever a frame has at least one byte. With a zero-byte frame that assertion divides by zero in a debug build. The model follows a release build there, where the length is zero and nothing is laid out.
- `Playback.Release` requires a sink to exist. Before the first press the source would dereference a null `m_audioOutput`.
- `Playback.HeldButtonPlays` and `Playback.PressPlaysReleaseSilences` are proved only for `IdealSink`. What a real device does with `resume` on a stopped output is platform behaviour.
