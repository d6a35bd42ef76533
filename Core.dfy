/**
 * The libretro core: the session object that owns the emulator, the
 * consumer half of its audio ring buffer, the binding table, the host's
 * render and pixel-format handles and the finished video frame, and its
 * per-frame `run`.
 */
module Core {
  import opened Primitives
  import opened ColorImage
  import opened Inputs

  /** Capacity, in samples, of the audio ring buffer made by `CoreEmulator::default`. */
  const AudioCapacity: nat := 4096

  /** The host's software-rendering handle, lent to the core by `load_game`. */
  type SoftwareRenderEnabled(==)

  /** The host's XRGB8888 pixel-format handle, obtained by `load_game`. */
  type ActiveFormat(==)

  /** What the core hands to the host's video upload for one frame. */
  datatype VideoUpload = VideoUpload(
    renderingMode: SoftwareRenderEnabled,
    pixelFormat: ActiveFormat,
    width: u16,
    height: u16,
    data: seq<u8>)

  /** The consumer half of the audio ring buffer: the samples queued, oldest first. */
  class AudioConsumer {
    const capacity: nat
    var queued: seq<u8>

    ghost predicate Valid()
      reads this
    {
      |queued| <= capacity
    }

    constructor (capacity: nat)
      ensures Valid()
      ensures this.capacity == capacity && queued == []
    {
      this.capacity := capacity;
      queued := [];
    }

    /** `is_empty`: whether no sample is waiting. */
    method IsEmpty() returns (empty: bool)
      ensures empty <==> queued == []
    {
      empty := |queued| == 0;
    }

    /** `pop`: removes and returns the oldest sample, or reports that there is none. */
    method Pop() returns (sample: Option<u8>)
      requires Valid()
      modifies this
      ensures Valid()
      ensures old(queued) == [] ==> sample == None && queued == []
      ensures old(queued) != [] ==> sample == Some(old(queued)[0]) && queued == old(queued)[1..]
    {
      if |queued| == 0 {
        sample := None;
      } else {
        sample := Some(queued[0]);
        queued := queued[1..];
      }
    }
  }

  /** `FrameBufferThing`: the finished video frame the host reads. */
  class FrameBufferThing {
    var videoFrame: seq<u8>

    /** The frame is empty until the first `run`, and one whole frame after it. */
    ghost predicate Valid()
      reads this
    {
      |videoFrame| == 0 || |videoFrame| == Width() as int * Height() as int * BytesPerPixel
    }

    constructor ()
      ensures Valid()
      ensures videoFrame == []
    {
      videoFrame := [];
    }

    /** `data`: the bytes the host reads, either none or one 128x128 frame of 4-byte pixels. */
    function Data(): (data: seq<u8>)
      reads this
      requires Valid()
      ensures |data| == 0 || |data| == FrameBytes
    {
      videoFrame
    }

    /** The frame's width, the same as the emulated display's. */
    function Width(): (w: u16)
      ensures w as int == ColorImage.Width
    {
      128
    }

    /** The frame's height, the same as the emulated display's. */
    function Height(): (h: u16)
      ensures h as int == ColorImage.Height
    {
      128
    }
  }

  /** The part of the emulator the core reads and writes: its per-command input state. */
  class Emulator {
    var inputState: map<InputCommand, KeyState>

    constructor (inputState: map<InputCommand, KeyState>)
      ensures this.inputState == inputState
    {
      this.inputState := inputState;
    }

    /** `set_input_state`: stores the key state of one command. */
    method SetInputState(command: InputCommand, state: KeyState)
      modifies this
      ensures inputState == old(inputState)[command := state]
    {
      inputState := inputState[command := state];
    }
  }

  class CoreEmulator {
    const emu: Emulator
    const audioConsumer: AudioConsumer
    const inputBindings: map<Key, InputCommand>
    const framebuffer: FrameBufferThing
    /** The emulator's colour table. */
    const palette: ColorTable
    /** The emulator's `KeyState::new` and `KeyState::update_state`. */
    const keyRules: KeyRules
    var renderingMode: Option<SoftwareRenderEnabled>
    var pixelFormat: Option<ActiveFormat>

    /** The session invariant: a bounded audio queue and the default binding table. */
    ghost predicate Valid()
      reads this, audioConsumer, framebuffer
    {
      && audioConsumer.Valid()
      && framebuffer.Valid()
      && audioConsumer.capacity == AudioCapacity
      && IsBindingTable(inputBindings)
      && Injective(inputBindings)
    }

    /** Both host handles are held, as `load_game` leaves them and `run` needs them. */
    ghost predicate Loaded()
      reads this
    {
      renderingMode.Some? && pixelFormat.Some?
    }

    /**
     * `CoreEmulator::default`: an emulator, a 4096-sample audio queue, the
     * default binding table, no host handles and an empty video frame.
     */
    constructor Default(palette: ColorTable, keyRules: KeyRules, engineInputState: map<InputCommand, KeyState>)
      ensures Valid()
      ensures fresh(emu) && fresh(audioConsumer) && fresh(framebuffer)
      ensures emu.inputState == engineInputState
      ensures audioConsumer.queued == []
      ensures |inputBindings| == 16
      ensures this.palette == palette && this.keyRules == keyRules
      ensures renderingMode == None && pixelFormat == None
      ensures framebuffer.videoFrame == []
    {
      var bindings := DefaultBindings();
      BindingTableInjective(bindings);
      emu := new Emulator(engineInputState);
      audioConsumer := new AudioConsumer(AudioCapacity);
      inputBindings := bindings;
      framebuffer := new FrameBufferThing();
      this.palette := palette;
      this.keyRules := keyRules;
      renderingMode := None;
      pixelFormat := None;
    }

    /**
     * The input loop of `run`: for every binding, in whatever order the table
     * yields them, stores the updated or new key state of its command from
     * the host's press state of its key.
     */
    method ReconcileInputs(pressed: Key -> bool)
      requires Valid()
      modifies emu
      ensures ReconciledOn(old(emu.inputState), emu.inputState, inputBindings, inputBindings.Keys, pressed, keyRules)
    {
      var remaining := inputBindings.Keys;
      ghost var visited: seq<Key> := [];
      while remaining != {}
        invariant remaining !! Elements(visited)
        invariant remaining + Elements(visited) == inputBindings.Keys
        invariant NoDuplicates(visited)
        invariant emu.inputState == ApplyInOrder(old(emu.inputState), inputBindings, pressed, keyRules, visited)
        decreases remaining
      {
        var key :| key in remaining;
        var command := inputBindings[key];
        if command in emu.inputState {
          emu.SetInputState(command, keyRules.update(emu.inputState[command], pressed(key)));
        } else {
          emu.SetInputState(command, keyRules.initial(pressed(key)));
        }
        assert (visited + [key])[..|visited|] == visited;
        visited := visited + [key];
        remaining := remaining - {key};
      }
      ApplyInOrderReconciles(old(emu.inputState), inputBindings, pressed, keyRules, visited);
    }

    /** The audio loop of `run`: pops until the queue is empty, discarding what it pops. */
    method DrainAudio()
      requires Valid()
      modifies audioConsumer
      ensures Valid()
      ensures audioConsumer.queued == []
    {
      var empty := audioConsumer.IsEmpty();
      while !empty
        invariant Valid()
        invariant empty <==> audioConsumer.queued == []
        decreases |audioConsumer.queued|
      {
        var _ := audioConsumer.Pop();
        empty := audioConsumer.IsEmpty();
      }
    }

    /**
     * `process_cycles`: the emulator's step is not part of this model; all
     * the core relies on is that afterwards the audio queue holds at most
     * its capacity.
     */
    method ProcessCycles()
      requires Valid()
      modifies audioConsumer
      ensures Valid()
    {
      var pushed: seq<u8> :| |pushed| <= audioConsumer.capacity;
      audioConsumer.queued := pushed;
    }

    /**
     * `run`: reconciles input, drains the audio queue, steps the emulator,
     * depalettises the framebuffer the emulator then holds, and uploads it
     * with both host handles, which are taken for the upload and put back.
     */
    method Run(pressed: Key -> bool, steppedFramebuffer: Framebuffer) returns (upload: VideoUpload)
      requires Valid() && Loaded()
      modifies this, emu, audioConsumer, framebuffer
      ensures Valid() && Loaded()
      ensures renderingMode == old(renderingMode) && pixelFormat == old(pixelFormat)
      ensures ReconciledOn(old(emu.inputState), emu.inputState, inputBindings, inputBindings.Keys, pressed, keyRules)
      ensures framebuffer.videoFrame == Depalettised(steppedFramebuffer, palette)
      ensures |framebuffer.Data()| == framebuffer.Width() as int * framebuffer.Height() as int * BytesPerPixel
      ensures upload.renderingMode == old(renderingMode).value && upload.pixelFormat == old(pixelFormat).value
      ensures upload.width == framebuffer.Width() && upload.height == framebuffer.Height()
      ensures upload.data == framebuffer.videoFrame
    {
      ReconcileInputs(pressed);
      DrainAudio();
      ProcessCycles();

      var pixels := BufferToColorImage(steppedFramebuffer, palette);
      framebuffer.videoFrame := pixels;

      var rendering := renderingMode.value;
      renderingMode := None;
      var format := pixelFormat.value;
      pixelFormat := None;

      upload := VideoUpload(rendering, format, framebuffer.Width(), framebuffer.Height(), framebuffer.Data());

      renderingMode := Some(rendering);
      pixelFormat := Some(format);
    }
  }

  /**
   * `load_game`: a default core that holds both host handles and is ready to
   * run.
   */
  method LoadGame(palette: ColorTable, keyRules: KeyRules, engineInputState: map<InputCommand, KeyState>,
                  renderingMode: SoftwareRenderEnabled, pixelFormat: ActiveFormat) returns (core: CoreEmulator)
    ensures fresh(core) && fresh(core.emu) && fresh(core.audioConsumer) && fresh(core.framebuffer)
    ensures core.Valid() && core.Loaded()
    ensures core.renderingMode == Some(renderingMode) && core.pixelFormat == Some(pixelFormat)
    ensures core.emu.inputState == engineInputState && core.audioConsumer.queued == []
    ensures core.palette == palette && core.keyRules == keyRules
    ensures core.framebuffer.videoFrame == [] && |core.inputBindings| == 16
  {
    core := new CoreEmulator.Default(palette, keyRules, engineInputState);
    core.renderingMode := Some(renderingMode);
    core.pixelFormat := Some(pixelFormat);
  }
}
