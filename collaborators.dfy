/** The kernel services the system-call handlers call into: the user-memory
    check of kern/pmap.c, `envid2env` and `env_destroy` of kern/env.c, the
    console input of kern/console.c and `cprintf`. Those files are not part of
    this model; each service is given the contract the handlers rely on and the
    simplest body that meets it. */
module Collaborators {
  import opened Types

  /** `user_mem_check(e, va, len, PTE_U)` succeeds: every byte of
      `[va, va + len)` is mapped with `PTE_U` in `e`'s address space. */
  predicate UserReadable(e: Env, va: Word, len: Word)
  {
    forall a :: va <= a < va + len ==> a in e.umem
  }

  /** The `len` bytes at `va`, which may be read once the check has passed. */
  function UserBytes(e: Env, va: Word, len: Word): (b: seq<Byte>)
    requires UserReadable(e, va, len)
    ensures |b| == len
    ensures forall i :: 0 <= i < len ==> b[i] == e.umem[va + i]
  {
    seq(len, i requires 0 <= i < len && UserReadable(e, va, len) => e.umem[va + i])
  }

  /** What the conversion `%.*s` emits of a bounded byte range: the bytes up to,
      and not including, the first NUL, never more than the range holds. */
  function UpToNul(b: seq<Byte>): (r: seq<Byte>)
    ensures r <= b
    ensures 0 !in r
    ensures |r| < |b| ==> b[|r|] == 0
  {
    if b == [] || b[0] == 0 then [] else [b[0]] + UpToNul(b[1..])
  }

  /** What `cprintf("%.*s", len, s)` emits of the checked bytes `b`. The
      `size_t` length is taken as the `int` precision, and a negative precision
      counts as none: printing then stops only at a NUL, so when the checked
      range holds none it goes on past `s + len`. */
  function PrintedForm(b: seq<Byte>, len: Word): (o: Output)
    ensures len < 0x8000_0000 || 0 in b ==> o == UserText(UpToNul(b))
    ensures len >= 0x8000_0000 && 0 !in b ==> o == OverRead(b)
  {
    if ToInt32(len) < 0 && 0 !in b then OverRead(b) else UserText(UpToNul(b))
  }

  /** `cprintf`: one more output on the console. */
  function Cprintf(st: KState, o: Output): (st': KState)
    ensures st'.trace == st.trace + [Print(o)]
    ensures Console(st'.trace) == Console(st.trace) + [o]
    ensures st' == st.(trace := st'.trace)
  {
    ConsoleAppend(st.trace, [Print(o)]);
    st.(trace := st.trace + [Print(o)])
  }

  /** `env_destroy(e)`: `e` is no longer live; destroying `curenv` means the
      caller never runs again. */
  function EnvDestroy(st: KState, e: EnvId): (st': KState)
    requires Valid(st) && e in st.envs
    ensures Valid(st')
    ensures st'.envs == st.envs - {e} && e !in st'.envs
    ensures st'.trace == st.trace + [Destroy(e)]
    ensures Console(st'.trace) == Console(st.trace)
    ensures st'.curDestroyed <==> st.curDestroyed || e == st.curenv
    ensures st'.curenv == st.curenv && st'.input == st.input
  {
    ConsoleAppend(st.trace, [Destroy(e)]);
    st.(envs := st.envs - {e},
        trace := st.trace + [Destroy(e)],
        curDestroyed := st.curDestroyed || e == st.curenv)
  }

  /** `envid2env(envid, &e, checkperm)`: id 0 names `curenv`; otherwise the id
      must be live and, when `checkperm` is set, be `curenv` itself or one of
      its children. The handlers rely only on the contract. */
  function Envid2Env(st: KState, envid: EnvId, checkperm: bool): (r: Result<EnvId>)
    requires Running(st)
    ensures r.Ok? ==> r.value in st.envs
    ensures r.Ok? ==> r.value == envid || (envid == 0 && r.value == st.curenv)
    ensures r.Err? ==> r.code == -E_BAD_ENV
  {
    if envid == 0 then Ok(st.curenv)
    else if envid !in st.envs then Err(-E_BAD_ENV)
    else if checkperm && envid != st.curenv && st.envs[envid].parentId != st.curenv then Err(-E_BAD_ENV)
    else Ok(envid)
  }

  /** `cons_getc()`: the next pending input byte, consumed, or 0 when none is
      pending; it never waits. */
  function ConsGetc(st: KState): (r: (KState, Byte))
    ensures st.input == [] <==> r.1 == 0
    ensures st.input != [] ==> r.1 == st.input[0] && r.0.input == st.input[1..]
    ensures r.0 == st.(input := r.0.input)
    ensures |r.0.input| == if st.input == [] then 0 else |st.input| - 1
  {
    var c: Byte := if st.input == [] then 0 else st.input[0];
    if st.input == [] then (st, c) else (st.(input := st.input[1..]), c)
  }
}
