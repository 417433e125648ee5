/** Machine words, environments, console events and the kernel state that the
    system-call layer of the JOS kernel (kern/syscall.c) reads and changes. */
module Types {

  const WORD_SIZE: int := 0x1_0000_0000

  /** `uint32_t`: the syscall number and the five raw argument words. */
  type Word = x: int | 0 <= x < 0x1_0000_0000

  /** `int32_t`: the dispatcher's result type, and `envid_t`. */
  type Int32 = x: int | -0x8000_0000 <= x < 0x8000_0000

  type Byte = x: int | 0 <= x < 0x100

  /** A byte queued by the console input path; a NUL byte is never queued. */
  type InChar = x: int | 0 < x < 0x100 witness 1

  type EnvId = Int32

  /** Error numbers of inc/error.h; the handlers return their negations. */
  const E_BAD_ENV: int := 2
  const E_INVAL: int := 3

  /** The two's-complement reading of a 32-bit word as `int32_t`, the cast the
      dispatcher applies when a raw word is passed as an `envid_t`. */
  function ToInt32(w: Word): (r: Int32)
    ensures r % WORD_SIZE == w
    ensures 0 <= r <==> w < 0x8000_0000
  {
    if w < 0x8000_0000 then w else w - WORD_SIZE
  }

  /** One environment (user process): its id, its parent's id, and the bytes of
      its address space that are mapped with `PTE_U`, by virtual address. */
  datatype Env = Env(id: EnvId, parentId: EnvId, umem: map<int, Byte>)

  /** What one `cprintf` of this file puts on the console. */
  datatype Output =
    | UserText(bytes: seq<Byte>)                 // sys_cputs: "%.*s"
    | OverRead(checked: seq<Byte>)               // "%.*s" with a negative precision: the checked
                                                 // bytes, then bytes past the range up to a NUL
    | ExitingGracefully(envId: EnvId)            // "[%08x] exiting gracefully\n"
    | Destroying(envId: EnvId, target: EnvId)    // "[%08x] destroying %08x\n"

  /** An observable step of the kernel, in the order it happens. */
  datatype Event =
    | Print(out: Output)
    | Destroy(envId: EnvId)

  /** The abstract kernel state: live environments by id, the current
      environment, the event trace (console output and destructions), the
      pending console input and whether `curenv` has been destroyed. */
  datatype KState = KState(
    envs: map<EnvId, Env>,
    curenv: EnvId,
    trace: seq<Event>,
    input: seq<InChar>,
    curDestroyed: bool)

  /** What the dispatcher hands back to the trap path: a value, the unspecified
      content of `eax` after a `void` handler, or nothing at all because the
      calling environment no longer exists. */
  datatype Reply = Value(v: Int32) | Unspecified | NoReturn

  datatype Option<T> = None | Some(value: T)

  datatype Result<T> = Ok(value: T) | Err(code: Int32)

  /** Every live environment is stored under its own id, which is positive
      (a negative reply means an error), and the flag says exactly whether
      `curenv` is gone. */
  predicate Valid(st: KState)
  {
    (forall id :: id in st.envs ==> 0 < id && st.envs[id].id == id) &&
    (st.curDestroyed <==> st.curenv !in st.envs)
  }

  /** The state in which a trap from `curenv` can reach the dispatcher. */
  predicate Running(st: KState)
  {
    Valid(st) && !st.curDestroyed
  }

  /** The console output contained in a trace. */
  function Console(t: seq<Event>): seq<Output>
  {
    if t == [] then []
    else Console(t[..|t| - 1]) + (if t[|t| - 1].Print? then [t[|t| - 1].out] else [])
  }

  lemma {:induction false} ConsoleAppend(a: seq<Event>, b: seq<Event>)
    ensures Console(a + b) == Console(a) + Console(b)
    decreases |b|
  {
    if b == [] {
      assert a + b == a;
    } else {
      var last := b[|b| - 1];
      var tail := if last.Print? then [last.out] else [];
      assert (a + b)[..|a + b| - 1] == a + b[..|b| - 1];
      ConsoleAppend(a, b[..|b| - 1]);
      calc {
        Console(a + b);
        Console(a + b[..|b| - 1]) + tail;
        Console(a) + Console(b[..|b| - 1]) + tail;
        Console(a) + Console(b);
      }
    }
  }
}
