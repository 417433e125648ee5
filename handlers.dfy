/** What each of the four system-call handlers of kern/syscall.c does to the
    kernel state, as functions of the state before the call. */
module Handlers {
  import opened Types
  import opened Collaborators

  /** `sys_cputs(s, len)`: check `[s, s + len)` for `PTE_U` in `curenv`, then
      print the bytes there. A failed check destroys `curenv` and the handler
      never gets to the print. */
  function SysCputs(st: KState, s: Word, len: Word): (r: (KState, Reply))
    requires Running(st)
    ensures Valid(r.0)
    ensures r.0.curenv == st.curenv && r.0.input == st.input
    ensures !UserReadable(st.envs[st.curenv], s, len) ==>
      r.1 == NoReturn && r.0.curDestroyed && r.0.envs == st.envs - {st.curenv} &&
      r.0.trace == st.trace + [Destroy(st.curenv)] &&
      Console(r.0.trace) == Console(st.trace)
    ensures UserReadable(st.envs[st.curenv], s, len) ==>
      var b := UserBytes(st.envs[st.curenv], s, len);
      r.1 == Unspecified && r.0.envs == st.envs && !r.0.curDestroyed &&
      r.0.trace == st.trace + [Print(PrintedForm(b, len))] &&
      (len < 0x8000_0000 || 0 in b ==>
        Console(r.0.trace) == Console(st.trace) + [UserText(UpToNul(b))]) &&
      (len >= 0x8000_0000 && 0 !in b ==>
        Console(r.0.trace) == Console(st.trace) + [OverRead(b)])
  {
    if !UserReadable(st.envs[st.curenv], s, len) then
      (EnvDestroy(st, st.curenv), NoReturn)
    else
      (Cprintf(st, PrintedForm(UserBytes(st.envs[st.curenv], s, len), len)), Unspecified)
  }

  /** `sys_cgetc()`: the next pending console byte, consumed, or 0 when there is
      none; nothing else changes. */
  function SysCgetc(st: KState): (r: (KState, Reply))
    requires Running(st)
    ensures Running(r.0)
    ensures st.input == [] <==> r.1 == Value(0)
    ensures st.input == [] ==> r.0 == st
    ensures st.input != [] ==> r.1 == Value(st.input[0]) && r.0 == st.(input := st.input[1..])
  {
    var (st', c) := ConsGetc(st);
    (st', Value(c))
  }

  /** `sys_getenvid()`: `curenv->env_id`, the caller's own id. */
  function SysGetenvid(st: KState): (id: EnvId)
    requires Running(st)
    ensures id == st.curenv && id > 0
  {
    st.envs[st.curenv].id
  }

  /** `sys_env_destroy(envid)`: resolve `envid` with permission checking; on
      failure return the code unchanged and do nothing else; on success print
      the diagnostic, then destroy the environment and return 0 (destroying
      `curenv` itself does not return). */
  function SysEnvDestroy(st: KState, envid: EnvId): (r: (KState, Reply))
    requires Running(st)
    ensures Valid(r.0)
    ensures Envid2Env(st, envid, true).Err? ==>
      r == (st, Value(Envid2Env(st, envid, true).code)) && r.1 == Value(-E_BAD_ENV)
    ensures Envid2Env(st, envid, true).Ok? ==>
      var e := Envid2Env(st, envid, true).value;
      e in st.envs &&
      r.0.envs == st.envs - {e} && r.0.input == st.input && r.0.curenv == st.curenv &&
      (e == st.curenv ==>
        r.0.trace == st.trace + [Print(ExitingGracefully(st.curenv)), Destroy(e)] &&
        r.0.curDestroyed && r.1 == NoReturn) &&
      (e != st.curenv ==>
        r.0.trace == st.trace + [Print(Destroying(st.curenv, e)), Destroy(e)] &&
        !r.0.curDestroyed && r.1 == Value(0))
  {
    match Envid2Env(st, envid, true)
    case Err(code) => (st, Value(code))
    case Ok(e) =>
      var diag :=
        if e == st.curenv then ExitingGracefully(st.envs[st.curenv].id)
        else Destroying(st.envs[st.curenv].id, st.envs[e].id);
      var st' := EnvDestroy(Cprintf(st, diag), e);
      (st', if e == st.curenv then NoReturn else Value(0))
  }
}
