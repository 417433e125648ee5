/** The dispatcher `syscall` of kern/syscall.c: the four-entry handler table,
    the bounds check on the untrusted syscall number, and the typed adapter
    that passes the raw argument words to the chosen handler. */
module Dispatch {
  import opened Types
  import H = Handlers

  /** The entries of `system_call_table`; being a datatype, no entry is null. */
  datatype Handler = SysCputs | SysCgetc | SysGetenvid | SysEnvDestroy

  const SystemCallTable: seq<Handler> := [SysCputs, SysCgetc, SysGetenvid, SysEnvDestroy]

  /** `sizeof(system_call_table) / sizeof(void *)`. */
  const NSYSCALLS: nat := |SystemCallTable|

  /** One handler invocation with its typed arguments. */
  datatype Call =
    | Cputs(s: Word, len: Word)
    | Cgetc
    | Getenvid
    | EnvDestroy(envid: EnvId)
  {
    /** The handler this invocation runs. */
    function Target(): Handler
    {
      match this
      case Cputs(_, _) => SysCputs
      case Cgetc => SysCgetc
      case Getenvid => SysGetenvid
      case EnvDestroy(_) => SysEnvDestroy
    }
  }

  /** The registers are pushed so that `a1` is the first C argument and `a2`
      the second: `sys_cputs(a1, a2)`, `sys_env_destroy((envid_t) a1)`, and the
      other two taking none. `a3`, `a4` and `a5` reach no handler. */
  function Marshal(h: Handler, a1: Word, a2: Word, a3: Word, a4: Word, a5: Word): (c: Call)
    ensures c.Target() == h
    ensures c.Cputs? ==> c.s == a1 && c.len == a2
    ensures c.EnvDestroy? ==> c.envid % WORD_SIZE == a1
  {
    match h
    case SysCputs => Cputs(a1, a2)
    case SysCgetc => Cgetc
    case SysGetenvid => Getenvid
    case SysEnvDestroy => EnvDestroy(ToInt32(a1))
  }

  /** The table lookup guarded by the bounds check: a number names a handler
      exactly when it is below the table length. */
  function Lookup(syscallno: Word): (r: Option<Handler>)
    ensures r.Some? <==> syscallno < NSYSCALLS
    ensures syscallno == 0 ==> r == Some(SysCputs)
    ensures syscallno == 1 ==> r == Some(SysCgetc)
    ensures syscallno == 2 ==> r == Some(SysGetenvid)
    ensures syscallno == 3 ==> r == Some(SysEnvDestroy)
  {
    if syscallno < |SystemCallTable| then Some(SystemCallTable[syscallno]) else None
  }

  /** The invocation a trap requests, or None for an out-of-range number. */
  function Decode(syscallno: Word, a1: Word, a2: Word, a3: Word, a4: Word, a5: Word): (r: Option<Call>)
    ensures r.None? <==> syscallno >= NSYSCALLS
    ensures r.Some? ==> r.value.Target() == SystemCallTable[syscallno]
    ensures r.Some? && r.value.Cputs? ==> r.value == Cputs(a1, a2)
    ensures r.Some? && r.value.EnvDestroy? ==> r.value == EnvDestroy(ToInt32(a1))
  {
    match Lookup(syscallno)
    case None => None
    case Some(h) => Some(Marshal(h, a1, a2, a3, a4, a5))
  }

  /** The indirect call: running the handler of `c` once with its typed
      arguments. Only `sys_cputs` leaves the reply unspecified, only
      `sys_env_destroy` answers a negative value, and then it is `-E_BAD_ENV`;
      the two handlers without arguments never print or destroy. */
  function Invoke(st: KState, c: Call): (r: (KState, Reply))
    requires Running(st)
    ensures Valid(r.0)
    ensures r.1.Unspecified? ==> c.Cputs?
    ensures r.1.Value? && r.1.v < 0 ==> c.EnvDestroy? && r.1.v == -E_BAD_ENV
    ensures c.Cgetc? || c.Getenvid? ==>
      r.0.envs == st.envs && r.0.trace == st.trace && r.1.Value? && r.1.v >= 0
    ensures c.Getenvid? ==> r == (st, Value(st.curenv))
  {
    match c
    case Cputs(s, len) => H.SysCputs(st, s, len)
    case Cgetc => H.SysCgetc(st)
    case Getenvid => (st, Value(H.SysGetenvid(st)))
    case EnvDestroy(envid) => H.SysEnvDestroy(st, envid)
  }

  /** `syscall(syscallno, a1, ..., a5)`: an out-of-range number is answered
      with `-E_INVAL` and nothing else happens; any other number runs exactly
      the handler in its table slot, once, and passes its reply back. */
  function Syscall(st: KState, syscallno: Word, a1: Word, a2: Word, a3: Word, a4: Word, a5: Word)
    : (r: (KState, Reply))
    requires Running(st)
    ensures Valid(r.0)
    ensures syscallno >= NSYSCALLS ==> r == (st, Value(-E_INVAL))
    ensures syscallno < NSYSCALLS ==>
      r == Invoke(st, Marshal(SystemCallTable[syscallno], a1, a2, a3, a4, a5))
  {
    match Decode(syscallno, a1, a2, a3, a4, a5)
    case None => (st, Value(-E_INVAL))
    case Some(c) => Invoke(st, c)
  }
}
