# GameTank libretro core: per-frame glue, modelled in Dafny

This project models the integration layer of a libretro core that runs a
GameTank emulator. It covers the per-frame work of `src/lib.rs`:

- **Depalettiser** (`buffer_to_color_image`). It turns the emulator's 128×128 grid of 8-bit palette indices
  into the host's XRGB8888 byte buffer, 4 bytes per pixel. The bytes of each pixel are written blue, green,
  red, alpha.
- **Binding table** (`CoreEmulator::default`). It binds each (host port, RetroPad button) pair to an emulated
  input command. Port 0 drives controller 1 and port 1 drives controller 2. On both ports, host X is
  relabelled to the emulated C.
- **Per-frame `run`**. For every binding, it updates or creates the command's `KeyState` from the host's
  press state. It then drains the audio ring buffer, steps the emulator, depalettises the framebuffer, and
  uploads the frame. The two host handles are taken for the upload and put back afterwards.

Layout:

- `Primitives.dfy`: `u8`, `u16`, `u32` and `Option`.
- `ColorImage.dfy`: the depalettiser and its specification `Depalettised`.
- `Inputs.dfy`: the binding table, plus the order-free specification of the reconciliation loop
  (`ReconciledOn`).
- `Core.dfy`: classes for the session object `CoreEmulator`, the audio consumer, the frame buffer and the
  emulator's input state.

Things the model treats as opaque:

- `COLOR_MAP` is the emulator crate's colour table. Here it is any 256-entry table of RGBA colours.
- `KeyState`, `KeyState::new` and `KeyState::update_state` are an abstract type and two abstract functions.
- The host's press query `is_joypad_button_pressed` is a parameter of `Run` of type `Key -> bool`.
- The framebuffer that `read_full_framebuffer` returns after the step is also a parameter of `Run`.
- `HashMap` iteration order is unspecified. The reconciliation loop therefore picks each next binding with
  `:|`, so it may take any order. Its postcondition, `ReconciledOn`, does not depend on order, and
  `ReconciledUnique` shows that this postcondition determines the new state. `OrderIndependent` proves
  directly that any two enumerations of the keys give the same state. Both results rely on the table being
  injective, which `BindingTableInjective` proves.

## Model

| member | source | states |
|---|---|---|
| `ColorImage.BufferToColorImage` | src/lib.rs:78-90 | The result is the concatenation of every pixel's 4-byte group, in pixel order. It is exactly 128·128·4 = 65536 bytes long whatever the framebuffer holds. Decoded 4 bytes at a time, it gives back exactly the colours the indices select. |
| `ColorImage.Depalettised` | src/lib.rs:79-89 | Every pixel adds exactly 4 bytes, so n indices give 4n bytes. |
| `ColorImage.DepalettisedAt` | src/lib.rs:81-86 | Output bytes 4i, 4i+1, 4i+2 and 4i+3 are the blue, green, red and alpha of the colour that index i selects. Red and blue are swapped relative to the table's (r, g, b, a) order. |
| `ColorImage.DepalettisedAppend` | src/lib.rs:81-87 | Pixel order is kept: depalettising a concatenation gives the concatenation of the depalettised parts. |
| `ColorImage.PixelDependsOnlyOnItsIndex` | src/lib.rs:81-87 | The four bytes of pixel i are equal for any two framebuffers that agree on index i. |
| `ColorImage.DecodeDepalettised` | src/lib.rs:81-87 | The output length is a multiple of 4. Reading each 4-byte group back as (r, g, b, a) gives the looked-up colours in pixel order, so the encoding is lossless. |
| `Inputs.DefaultBindings` | src/lib.rs:46-64 | The 16 inserts build a map that binds exactly the keys `BindingFor` binds, to the same commands. No insert overwrites another, so the map has exactly 16 entries. |
| `Inputs.HostXDrivesC` | src/lib.rs:55-64 | Host X on port 0 is bound to controller 1's C, and host X on port 1 to controller 2's C. Every key bound to a C is a host X. |
| `Inputs.BindingPorts` | src/lib.rs:48-64 | Only ports 0 and 1 are bound. Port-0 keys map only to controller 1 and port-1 keys only to controller 2. Every button of both controllers is the target of some key. |
| `Inputs.BindingTableInjective` | src/lib.rs:48-64 | Distinct (port, button) keys are bound to distinct commands. |
| `Inputs.ApplyInOrderReconciles` | src/lib.rs:135-141 | Handling injective bindings one after another, in any order without repeats, gives this state: each bound command holds `update_state` of its old entry if it had one, otherwise `KeyState::new`, computed from its key's press state. Every other command keeps its old entry, and no other command appears. |
| `Inputs.ReconciledUnique` | src/lib.rs:135-141 | The order-free description of the loop's result determines that result uniquely. |
| `Inputs.OrderIndependent` | src/lib.rs:135-141 | For an injective table, any two duplicate-free enumerations of its keys give the same input state. |
| `Inputs.UnboundKeysIgnored` | src/lib.rs:135-141 | Press states of keys that no binding mentions have no effect on the input state. |
| `Inputs.HostXSetsC` | src/lib.rs:135-141 | With the default table, after reconciliation controller 1's C (controller 2's C) holds the state refreshed from the press state of host X on port 0 (port 1). |
| `Core.AudioConsumer.constructor` | src/lib.rs:44 | The ring buffer is created empty with the given capacity. |
| `Core.AudioConsumer.IsEmpty` | src/lib.rs:143 | The result is true exactly when no sample is queued. |
| `Core.AudioConsumer.Pop` | src/lib.rs:144 | On an empty queue, the result is `None` and the queue is unchanged. Otherwise it returns the oldest sample and removes it. The queue stays within capacity. |
| `Core.FrameBufferThing.constructor` | src/lib.rs:73 | The video frame starts empty. |
| `Core.FrameBufferThing.Data` | src/lib.rs:175-177 | The bytes of the video frame the host reads. They are empty before the first frame and exactly 128·128·4 bytes after it, which the frame buffer's invariant keeps. |
| `Core.FrameBufferThing.Width` | src/lib.rs:179-181 | The frame's width equals the emulated display's width, 128. |
| `Core.FrameBufferThing.Height` | src/lib.rs:183-185 | The frame's height equals the emulated display's height, 128. |
| `Core.Emulator.constructor` | src/lib.rs:67 | The emulator starts with the given input state. |
| `Core.Emulator.SetInputState` | src/lib.rs:137-139 | Stores the given key state for the command and leaves every other command's entry unchanged. |
| `Core.CoreEmulator.Default` | src/lib.rs:40-75 | A new session holds fresh emulator, audio and frame objects. The audio queue is empty with capacity 4096. The binding table is the injective 16-entry default table. Neither host handle is present, and the video frame is empty. |
| `Core.CoreEmulator.ReconcileInputs` | src/lib.rs:135-141 | Visiting the bindings in any order, the new input state satisfies `ReconciledOn` against the old one for the whole binding table. |
| `Core.CoreEmulator.DrainAudio` | src/lib.rs:143-145 | Afterwards the audio queue is empty. |
| `Core.CoreEmulator.ProcessCycles` | src/lib.rs:147 | The emulator step leaves at most 4096 samples in the audio queue. |
| `Core.CoreEmulator.Run` | src/lib.rs:132-161 | The caller must hold both handles, since otherwise the `unwrap`s panic. Afterwards both handles are present again, unchanged. The input state is reconciled as `ReconciledOn` states. The video frame is the depalettised framebuffer, and its length is width·height·4. The upload carries both handles, 128×128 and exactly that frame. |
| `Core.LoadGame` | src/lib.rs:107-125 | Returns a new default session that holds both given handles, so `Run` may be called on it. The session uses the given palette and key rules. Its audio queue and video frame are empty, and its binding table is the 16-entry default. |

## Left out

- The libretro FFI glue is not modelled: `libretro_core!`, `get_system_info`, `get_system_av_info`, `init`,
  and the `unsafe` `as_data_unchecked`. These are thin wrappers over a library that is not part of this
  model.
- The following parts of `load_game` are not modelled: the pixel-format negotiation
  `set_pixel_format_xrgb8888` with its possible failure, `load_rom`, and setting the play state to
  `Playing`. The ROM bytes and the play state live inside the emulator crate, which is not part of this
  model.
- `Core.CoreEmulator.ProcessCycles` is the emulator step `process_cycles`, which is not part of this model.
  The model only assumes the step fills the audio queue with some samples up to its capacity. The model
  does not let the step change the input state.
- `read_full_framebuffer` is not modelled. Its result after the step is the `steppedFramebuffer` parameter
  of `Run`.
- The host's video upload is not modelled. `Run` returns what it is given, as a `VideoUpload` value.
- `poll_inputs` and the `InputsPolled` token `run` returns are not modelled. The core passes that token
  through unchanged.
- The meaning of `KeyState`, `KeyState::new` and `update_state` is not modelled. They belong to the emulator
  crate, so the model cannot say what key state the engine reports for a sequence of presses. The model only
  says which of the two functions is applied to what.
- `Core.Emulator.SetInputState` is assumed to store the entry in `input_state`. The engine's
  `set_input_state` is not part of this model.
- `ControllerButton` is given only the eight buttons the table uses. The crate's full enumeration is not
  part of this model. Because of that, "no binding targets an emulated X" holds by the type. The model
  additionally proves that only host X reaches C (`HostXDrivesC`).
- The producer half of the audio ring buffer and its lock-free, concurrent behaviour are not modelled. The
  emulator is the sole producer, so the FIFO and drop-on-full behaviour of pushes lives in the emulator
  crate. The consumer is modelled as a sequence.
- `InstantClock::get_now_ms` is not modelled. It reads wall-clock time as floating point.
- `reset` and `unload_game` are not modelled. Both are `todo!()` and have no behaviour.
- The contents of `COLOR_MAP` are not modelled. They come from another crate, so the table is a parameter.
- Two other designs are possible but not used, because the model follows the code. One would pass the host
  handles into and out of `run` instead of holding them in `Option` fields. The other would create the key
  state of every command up front instead of on first use.
