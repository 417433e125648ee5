/** Properties of the system-call layer that relate several calls or hold of
    every system call. */
module Properties {
  import opened Types
  import opened Collaborators
  import H = Handlers
  import D = Dispatch
  import K = KernSyscall

  /** The reply `-E_INVAL` comes back exactly for an out-of-range number: no
      handler ever answers it. */
  lemma InvalOnlyOutOfRange(st: KState, no: Word, a1: Word, a2: Word, a3: Word, a4: Word, a5: Word)
    requires Running(st)
    ensures D.Syscall(st, no, a1, a2, a3, a4, a5).1 == Value(-E_INVAL) <==> no >= D.NSYSCALLS
  {
    if no < D.NSYSCALLS {
      var c := D.Marshal(D.SystemCallTable[no], a1, a2, a3, a4, a5);
      var r := D.Invoke(st, c);
      assert r.1.Value? && r.1.v < 0 ==> r.1.v == -E_BAD_ENV;
    }
  }

  /** What a successful `sys_cputs` prints is exactly the `len` checked bytes
      at `s`, in order, when none of them is NUL and `len` fits the `int`
      precision of `%.*s`. */
  lemma CputsPrintsExactBytes(st: KState, s: Word, len: Word)
    requires Running(st)
    requires len < 0x8000_0000
    requires UserReadable(st.envs[st.curenv], s, len)
    requires forall a :: s <= a < s + len ==> st.envs[st.curenv].umem[a] != 0
    ensures var b := UpToNul(UserBytes(st.envs[st.curenv], s, len));
      Console(H.SysCputs(st, s, len).0.trace) == Console(st.trace) + [UserText(b)] &&
      |b| == len && forall i :: 0 <= i < len ==> b[i] == st.envs[st.curenv].umem[s + i]
  {
  }

  /** The extra words `a3`, `a4` and `a5` never matter, and the handlers that
      take no arguments ignore `a1` and `a2` as well. */
  lemma UnusedWordsIgnored(st: KState, no: Word, a1: Word, a2: Word, a3: Word, a4: Word, a5: Word,
                           b1: Word, b2: Word, b3: Word, b4: Word, b5: Word)
    requires Running(st)
    ensures D.Syscall(st, no, a1, a2, a3, a4, a5) == D.Syscall(st, no, a1, a2, b3, b4, b5)
    ensures no == 1 || no == 2 ==>
      D.Syscall(st, no, a1, a2, a3, a4, a5) == D.Syscall(st, no, b1, b2, b3, b4, b5)
  {
  }

  /** Through the dispatcher, `sys_env_destroy` passes an `envid2env` failure
      back unchanged, with no output and no environment destroyed. */
  lemma EnvDestroyErrorPropagates(st: KState, a1: Word, a2: Word, a3: Word, a4: Word, a5: Word)
    requires Running(st)
    requires Envid2Env(st, ToInt32(a1), true).Err?
    ensures D.Syscall(st, 3, a1, a2, a3, a4, a5) == (st, Value(Envid2Env(st, ToInt32(a1), true).code))
  {
  }

  /** `getenvid` issued twice in a row answers the caller's id both times and
      changes nothing. */
  lemma GetenvidStable(st: KState, a1: Word, a2: Word, a3: Word, a4: Word, a5: Word,
                       b1: Word, b2: Word, b3: Word, b4: Word, b5: Word)
    requires Running(st)
    ensures var (st1, r1) := D.Syscall(st, 2, a1, a2, a3, a4, a5);
      st1 == st && r1 == Value(st.curenv) && D.Syscall(st1, 2, b1, b2, b3, b4, b5) == (st, r1)
  {
  }

  /** `st'` follows `st` by one system call's worth of change: the console
      only gains lines, no environment is added and at most one is destroyed,
      at most one input byte is consumed, from the front, and `curenv` stays. */
  predicate Follows(st: KState, st': KState)
  {
    Console(st.trace) <= Console(st'.trace) &&
    st'.envs.Keys <= st.envs.Keys &&
    |st.envs.Keys - st'.envs.Keys| <= 1 &&
    (st'.input == st.input || (st.input != [] && st'.input == st.input[1..])) &&
    st'.curenv == st.curenv
  }

  lemma CputsFollows(st: KState, s: Word, len: Word)
    requires Running(st)
    ensures Follows(st, H.SysCputs(st, s, len).0)
  {
    var st' := H.SysCputs(st, s, len).0;
    if !UserReadable(st.envs[st.curenv], s, len) {
      assert st.envs.Keys - st'.envs.Keys == {st.curenv};
    }
  }

  lemma CgetcFollows(st: KState)
    requires Running(st)
    ensures Follows(st, H.SysCgetc(st).0)
  {
  }

  /** A step that prints one output and then destroys one live environment. */
  lemma PrintThenDestroyFollows(st: KState, st': KState, o: Output, e: EnvId)
    requires e in st.envs && st'.envs == st.envs - {e}
    requires st'.trace == st.trace + [Print(o), Destroy(e)]
    requires st'.input == st.input && st'.curenv == st.curenv
    ensures Follows(st, st')
  {
    assert st.envs.Keys - st'.envs.Keys == {e};
    ConsoleAppend(st.trace, [Print(o), Destroy(e)]);
    assert Console([Print(o), Destroy(e)]) == [o] by {
      assert [Print(o), Destroy(e)][..1] == [Print(o)];
      assert [Print(o)][..0] == [];
      assert Console([Print(o)]) == Console([]) + [o];
      assert Console([Print(o), Destroy(e)]) == Console([Print(o)]) + [];
    }
  }

  lemma EnvDestroyFollows(st: KState, envid: EnvId)
    requires Running(st)
    ensures Follows(st, H.SysEnvDestroy(st, envid).0)
  {
    var st' := H.SysEnvDestroy(st, envid).0;
    var r := Envid2Env(st, envid, true);
    if r.Ok? {
      var e := r.value;
      var o := if e == st.curenv then ExitingGracefully(st.curenv) else Destroying(st.curenv, e);
      PrintThenDestroyFollows(st, st', o, e);
    }
  }

  /** Every system call only appends to the console, never revives or adds an
      environment, destroys at most one, and consumes at most one input byte,
      from the front. */
  lemma SyscallMonotone(st: KState, no: Word, a1: Word, a2: Word, a3: Word, a4: Word, a5: Word)
    requires Running(st)
    ensures Follows(st, D.Syscall(st, no, a1, a2, a3, a4, a5).0)
  {
    if no == 0 {
      CputsFollows(st, a1, a2);
    } else if no == 1 {
      CgetcFollows(st);
    } else if no == 2 {
      assert D.Syscall(st, no, a1, a2, a3, a4, a5).0 == st;
    } else if no == 3 {
      EnvDestroyFollows(st, ToInt32(a1));
    }
  }

  /** The same two `getenvid` calls run on the kernel object itself. */
  method GetenvidTwice(k: K.Kernel) returns (r1: Reply, r2: Reply)
    requires Running(k.State())
    modifies k
    ensures r1 == r2 == Value(old(k.curenv))
    ensures k.State() == old(k.State())
    ensures k.calls == old(k.calls) + [D.Getenvid, D.Getenvid]
  {
    r1 := k.Syscall(2, 0, 0, 0, 0, 0);
    r2 := k.Syscall(2, 0, 0, 0, 0, 0);
  }
}
