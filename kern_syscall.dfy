/** The kernel's mutable state and the code of kern/syscall.c as it runs on
    it: the collaborators are called in the order the C calls them, and every
    method is proved to have the effect the pure model in Handlers and Dispatch
    describes. */
module KernSyscall {
  import opened Types
  import C = Collaborators
  import H = Handlers
  import D = Dispatch

  class Kernel {
    var envs: map<EnvId, Env>
    var curenv: EnvId
    var trace: seq<Event>
    var input: seq<InChar>
    var curDestroyed: bool
    /** Every handler invocation so far, with its typed arguments. */
    ghost var calls: seq<D.Call>

    function State(): KState
      reads this
    {
      KState(envs, curenv, trace, input, curDestroyed)
    }

    constructor (envs0: map<EnvId, Env>, cur: EnvId, input0: seq<InChar>)
      requires Running(KState(envs0, cur, [], input0, false))
      ensures State() == KState(envs0, cur, [], input0, false) && calls == []
    {
      envs, curenv, trace, input, curDestroyed := envs0, cur, [], input0, false;
      calls := [];
    }

    // ---- collaborators

    /** `user_mem_assert(curenv, va, len, PTE_U)`: returns when the range is
        readable; otherwise destroys `curenv` and does not come back. */
    method UserMemAssert(va: Word, len: Word) returns (returned: bool)
      requires Running(State())
      modifies this
      ensures returned == C.UserReadable(old(envs)[old(curenv)], va, len)
      ensures State() == if returned then old(State()) else C.EnvDestroy(old(State()), old(curenv))
      ensures calls == old(calls)
    {
      returned := C.UserReadable(envs[curenv], va, len);
      if !returned {
        var _ := EnvDestroy(curenv);
      }
    }

    /** `cprintf("%.*s", len, s)`, allowed only on a range already checked. */
    method CputsUser(s: Word, len: Word)
      requires Running(State()) && C.UserReadable(envs[curenv], s, len)
      modifies this
      ensures State() == C.Cprintf(old(State()), C.PrintedForm(C.UserBytes(old(envs)[old(curenv)], s, len), len))
      ensures calls == old(calls)
    {
      Cprintf(C.PrintedForm(C.UserBytes(envs[curenv], s, len), len));
    }

    method Cprintf(o: Output)
      modifies this
      ensures State() == C.Cprintf(old(State()), o)
      ensures calls == old(calls)
    {
      trace := trace + [Print(o)];
    }

    /** `env_destroy(e)`; it comes back only when `e` is not `curenv`. */
    method EnvDestroy(e: EnvId) returns (returned: bool)
      requires Valid(State()) && e in envs
      modifies this
      ensures State() == C.EnvDestroy(old(State()), e)
      ensures returned <==> e != old(curenv)
      ensures calls == old(calls)
    {
      trace := trace + [Destroy(e)];
      if e == curenv {
        curDestroyed := true;
      }
      envs := envs - {e};
      returned := e != curenv;
    }

    method Envid2Env(envid: EnvId, checkperm: bool) returns (r: Result<EnvId>)
      requires Running(State())
      ensures r == C.Envid2Env(State(), envid, checkperm)
    {
      if envid == 0 {
        return Ok(curenv);
      }
      if envid !in envs {
        return Err(-E_BAD_ENV);
      }
      if checkperm && envid != curenv && envs[envid].parentId != curenv {
        return Err(-E_BAD_ENV);
      }
      r := Ok(envid);
    }

    method ConsGetc() returns (c: Byte)
      modifies this
      ensures (State(), c) == C.ConsGetc(old(State()))
      ensures calls == old(calls)
    {
      if input == [] {
        c := 0;
      } else {
        c := input[0];
        input := input[1..];
      }
    }

    // ---- handlers

    method SysCputs(s: Word, len: Word) returns (ret: Reply)
      requires Running(State())
      modifies this
      ensures (State(), ret) == H.SysCputs(old(State()), s, len)
      ensures calls == old(calls) + [D.Cputs(s, len)]
    {
      calls := calls + [D.Cputs(s, len)];
      var returned := UserMemAssert(s, len);
      if !returned {
        return NoReturn;
      }
      CputsUser(s, len);
      ret := Unspecified;
    }

    method SysCgetc() returns (ret: Reply)
      requires Running(State())
      modifies this
      ensures (State(), ret) == H.SysCgetc(old(State()))
      ensures calls == old(calls) + [D.Cgetc]
    {
      calls := calls + [D.Cgetc];
      var c := ConsGetc();
      ret := Value(c);
    }

    method SysGetenvid() returns (id: EnvId)
      requires Running(State())
      modifies this
      ensures State() == old(State()) && id == H.SysGetenvid(State())
      ensures calls == old(calls) + [D.Getenvid]
    {
      calls := calls + [D.Getenvid];
      id := envs[curenv].id;
    }

    method SysEnvDestroy(envid: EnvId) returns (ret: Reply)
      requires Running(State())
      modifies this
      ensures (State(), ret) == H.SysEnvDestroy(old(State()), envid)
      ensures calls == old(calls) + [D.EnvDestroy(envid)]
    {
      calls := calls + [D.EnvDestroy(envid)];
      var r := Envid2Env(envid, true);
      if r.Err? {
        return Value(r.code);
      }
      var e := r.value;
      if e == curenv {
        Cprintf(ExitingGracefully(envs[curenv].id));
      } else {
        Cprintf(Destroying(envs[curenv].id, envs[e].id));
      }
      var returned := EnvDestroy(e);
      if !returned {
        return NoReturn;
      }
      ret := Value(0);
    }

    // ---- dispatcher

    /** `syscall(syscallno, a1, ..., a5)`: exactly one handler runs, the one in
        the table slot, with the marshalled arguments, when the number is in
        range; none runs otherwise. */
    method Syscall(syscallno: Word, a1: Word, a2: Word, a3: Word, a4: Word, a5: Word) returns (ret: Reply)
      requires Running(State())
      modifies this
      ensures (State(), ret) == D.Syscall(old(State()), syscallno, a1, a2, a3, a4, a5)
      ensures syscallno < D.NSYSCALLS ==>
        calls == old(calls) + [D.Marshal(D.SystemCallTable[syscallno], a1, a2, a3, a4, a5)]
      ensures syscallno >= D.NSYSCALLS ==> calls == old(calls)
    {
      if syscallno < |D.SystemCallTable| {
        var func := D.SystemCallTable[syscallno];
        if func.SysCputs? {
          ret := SysCputs(a1, a2);
        } else if func.SysCgetc? {
          ret := SysCgetc();
        } else if func.SysGetenvid? {
          var id := SysGetenvid();
          ret := Value(id);
        } else {
          ret := SysEnvDestroy(ToInt32(a1));
        }
        return;
      }
      ret := Value(-E_INVAL);
    }
  }
}
