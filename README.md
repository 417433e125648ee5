# JOS system-call layer in Dafny

A model of `kern/syscall.c` of the JOS teaching kernel (x86). This file is the kernel's system-call boundary. The dispatcher `syscall` takes an untrusted syscall number and five 32-bit words. It checks the number against the four-entry `system_call_table`, and then either runs one handler with the words as its arguments or answers `-E_INVAL`. The four handlers are:

- `sys_cputs`: prints a user buffer after `user_mem_assert` has checked it.
- `sys_cgetc`: reads a console byte without waiting.
- `sys_getenvid`: returns the caller's environment id.
- `sys_env_destroy`: resolves an id, prints a diagnostic and destroys that environment.

The model has five modules:

- `Types`: 32-bit words, environments, console output and the event trace, the abstract kernel state `KState` (live environments by id, `curenv`, the trace, pending input, and whether `curenv` is destroyed), and the dispatcher's `Reply`.
- `Collaborators`: the services the handlers call, which live in files outside this model. These are the user-memory check of kern/pmap.c, `envid2env` and `env_destroy` of kern/env.c, `cons_getc` of kern/console.c, and `cprintf`. Each has the contract the handlers rely on and a minimal body.
- `Handlers`: the four handlers as functions from the state before the call.
- `Dispatch`: the table, the bounds check, and the typed adapter that replaces the inline assembly (`sys_cputs(s := a1, len := a2)`, `sys_env_destroy(envid := (int32) a1)`, the other two taking no arguments). Its `Syscall` function is the dispatcher's specification.
- `KernSyscall`: class `Kernel`, which holds the state in fields. Its methods call the collaborators in the order the C code calls them, and each method is proved equal to its pure counterpart. A ghost log `calls` records every handler invocation with its typed arguments. This is how the model proves that `syscall` runs exactly one handler, the one in the table slot, once, with `a1` first and `a2` second, and runs none for an out-of-range number.

`Properties` holds the lemmas that relate several calls.

Points where the model follows the code rather than the prose:

- `sys_cputs` prints with `cprintf("%.*s", len, s)`. The `size_t` length becomes the `int` precision of `%.*s`, and a negative precision counts as no precision at all. So for `len` below 2^31, printing stops at the first NUL within the `len` checked bytes, or after all of them (`UpToNul`). For `len` of 2^31 or more, printing stops only at a NUL. When the checked range holds no NUL, printing goes on past `s + len` into bytes that were never checked, which the model records as `OverRead` (`Collaborators.PrintedForm`). The comment "exactly `len` characters" therefore holds only for a NUL-free buffer with `len` below 2^31 (`Properties.CputsPrintsExactBytes`).
- `sys_cputs` is `void`, so the dispatcher's result for syscall 0 is whatever `eax` holds: `Reply.Unspecified`.
- `env_destroy` of the current environment and a failing `user_mem_assert` both do not return to the caller. They yield `Reply.NoReturn`. So the `return 0` of `sys_env_destroy` is reached only when another environment was destroyed.
- `E_INVAL` and `E_BAD_ENV` come from inc/error.h, which is not part of this model. They are given the values 3 and 2. The model relies only on their being distinct and positive: together with environment ids being positive, this makes `-E_INVAL` a reply that no handler can give (`Properties.InvalOnlyOutOfRange`).

## Model

| member | source | states |
|---|---|---|
| Types.ToInt32 | kern/syscall.c:50 | the raw word `a1` becomes an `envid_t` by two's-complement reinterpretation: the result is congruent to the word modulo 2^32, and it is non-negative exactly when the word is below 2^31 |
| Collaborators.UserReadable | kern/syscall.c:20-24 | the verdict of the `user_mem_assert` check on `curenv` for `[s, s+len)` with `PTE_U`: every address of the range is mapped user-readable |
| Collaborators.UserBytes | kern/syscall.c:26 | the bytes the print reads, defined only once the range is readable: exactly `len` of them, the bytes at `s`, `s+1`, ... in order |
| Collaborators.PrintedForm | kern/syscall.c:26 | `%.*s` with the precision `(int) len`: for `len` below 2^31, or when the checked bytes hold a NUL, the output is the bytes before the first NUL; for `len` of 2^31 or more without a NUL, the output runs past the checked range (`OverRead`) |
| Collaborators.UpToNul | kern/syscall.c:26 | what `%.*s` prints of a range: a prefix of it, containing no NUL, and ending either at the end of the range or just before a NUL |
| Collaborators.Cprintf | kern/syscall.c:26 | a `cprintf` appends exactly one output to the trace and to the console and changes nothing else |
| Collaborators.EnvDestroy | kern/syscall.c:61 | `env_destroy(e)` makes `e` no longer live, records the destruction in the trace and prints nothing; the caller is gone exactly when `e` is `curenv`; the state stays consistent |
| Collaborators.Envid2Env | kern/syscall.c:55 | `envid2env` either yields a live environment, which is `envid` itself or, for id 0, `curenv`, or fails with `-E_BAD_ENV`, as documented at kern/syscall.c:46-48 |
| Collaborators.ConsGetc | kern/syscall.c:34 | `cons_getc` returns 0 exactly when no input is pending; otherwise it returns the first pending byte and consumes exactly that byte; nothing else changes |
| Handlers.SysCputs | kern/syscall.c:17-27 | check before print: if `[s, s+len)` is not readable with `PTE_U`, the trace gains only the destruction of `curenv`, the console gets nothing and the call does not return; if it is readable, the environments are unchanged, the trace gains exactly one print and no destruction, and the console gets the bytes at `s` up to the first NUL (for `len` below 2^31 or a range holding a NUL) or an over-read that starts with all `len` checked bytes (otherwise); the reply is unspecified |
| Handlers.SysCgetc | kern/syscall.c:29-35 | the reply is 0 exactly when nothing is pending, and then the state is unchanged; otherwise the reply is the next pending byte, and only that byte leaves the queue; it never blocks and never fails |
| Handlers.SysGetenvid | kern/syscall.c:37-42 | the result is the calling environment's own id, which is positive and so never reads as an error |
| Handlers.SysEnvDestroy | kern/syscall.c:44-63 | when `envid2env(envid, &e, 1)` fails, its code, `-E_BAD_ENV`, comes back unchanged and the state is untouched; when it succeeds, the trace grows by exactly the diagnostic and then the destruction of `e`; the diagnostic is "exiting gracefully" when `e` is `curenv` (then the call does not return) and "destroying `e`" otherwise (then the reply is 0) |
| Dispatch.Marshal | kern/syscall.c:91-103 | the adapter builds a call to exactly the given handler; `sys_cputs` gets `a1` as `s` and `a2` as `len`, and `sys_env_destroy` gets `a1` reinterpreted as `envid_t` |
| Dispatch.Lookup | kern/syscall.c:67-72 | a number selects a handler exactly when it is below the table length; 0, 1, 2 and 3 select `sys_cputs`, `sys_cgetc`, `sys_getenvid` and `sys_env_destroy` |
| Dispatch.Decode | kern/syscall.c:86-103 | no call results exactly for an out-of-range number; otherwise the call targets the handler in the table slot of the number, with the arguments in order |
| Dispatch.Invoke | kern/syscall.c:96 | the indirect call runs the handler of the typed call once; only `sys_cputs` leaves the reply unspecified; a negative reply comes only from `sys_env_destroy` and is `-E_BAD_ENV`; `sys_cgetc` and `sys_getenvid` neither print nor destroy and answer a non-negative value, and `sys_getenvid` answers the caller's id with the state unchanged |
| Dispatch.Syscall | kern/syscall.c:75-111 | a number at or above 4 yields `-E_INVAL` and leaves the state unchanged; any smaller number gives exactly the effect and reply of the table's handler, run once on the marshalled arguments; the state stays consistent |
| KernSyscall.Kernel.UserMemAssert | kern/syscall.c:24 | it returns exactly when the range is readable, and then nothing has changed; otherwise `curenv` has been destroyed |
| KernSyscall.Kernel.CputsUser | kern/syscall.c:26 | the print of the user's bytes can only be issued once their range is known to be readable, and it appends their printed form |
| KernSyscall.Kernel.Cprintf | kern/syscall.c:58-60 | one console line appended to the trace |
| KernSyscall.Kernel.EnvDestroy | kern/syscall.c:61 | the field updates have the effect of `Collaborators.EnvDestroy`, and control comes back exactly when the target is not `curenv` |
| KernSyscall.Kernel.Envid2Env | kern/syscall.c:55 | the lookup on the fields answers what `Collaborators.Envid2Env` does on the state |
| KernSyscall.Kernel.ConsGetc | kern/syscall.c:34 | consuming from the input field has the effect and result of `Collaborators.ConsGetc` |
| KernSyscall.Kernel.SysCputs | kern/syscall.c:17-27 | assert, then print (or stop), has the effect of `Handlers.SysCputs`; the call is logged once with `(s, len)` |
| KernSyscall.Kernel.SysCgetc | kern/syscall.c:31-35 | the effect and reply of `Handlers.SysCgetc`; logged once |
| KernSyscall.Kernel.SysGetenvid | kern/syscall.c:38-42 | the state is unchanged and the result is `Handlers.SysGetenvid`; logged once |
| KernSyscall.Kernel.SysEnvDestroy | kern/syscall.c:49-63 | resolve, print, destroy and return, in that order, has the effect and reply of `Handlers.SysEnvDestroy`; logged once with its `envid` |
| KernSyscall.Kernel.Syscall | kern/syscall.c:75-111 | the effect and reply of `Dispatch.Syscall`; for a number below 4, exactly one handler invocation is logged, the one `Dispatch.Marshal` builds for the table slot; for any other number none is |
| Properties.InvalOnlyOutOfRange | kern/syscall.c:86-109 | the dispatcher answers `-E_INVAL` exactly when the number is at or above the table length; no handler reply can be mistaken for it |
| Properties.CputsPrintsExactBytes | kern/syscall.c:14-26 | when `len` is below 2^31 and the checked buffer holds no NUL, the console receives exactly the `len` bytes at `s`, in order |
| Properties.UnusedWordsIgnored | kern/syscall.c:91-103 | `a3`, `a4` and `a5` never affect a system call, and `a1` and `a2` do not affect `sys_cgetc` or `sys_getenvid` |
| Properties.EnvDestroyErrorPropagates | kern/syscall.c:55-56 | through the dispatcher, an `envid2env` failure is the reply unchanged, with the state untouched |
| Properties.GetenvidStable | kern/syscall.c:37-42 | two consecutive `getenvid` system calls both answer the caller's id and change nothing |
| Properties.SyscallMonotone | kern/syscall.c:75-111 | every system call only appends to the console, destroys at most one environment and never adds one, consumes at most one input byte from the front, and keeps `curenv` |
| Properties.GetenvidTwice | kern/syscall.c:37-42 | on the kernel object, two `getenvid` system calls return the same value, the caller's id, and leave the state as it was |

## Left out

- The inline assembly (kern/syscall.c:91-104): the register and stack convention, the pushed arguments that are never popped, and the read of `eax`. The call is modelled as the typed adapter `Dispatch.Marshal`.
- The debug prints `cprintf("func: %p\n", func)` (kern/syscall.c:84, 89). They print pointer values and change no other behaviour.
- Handlers.SysCputs: for `len` of 2^31 or more with no NUL in the checked range, the output is recorded as `OverRead` of the checked bytes. The bytes read past `s + len` are not modelled, and neither is a fault on reaching unmapped memory. `Properties.CputsPrintsExactBytes` is stated only for `len` below 2^31, because for larger `len` the source does not bound the print by `len`.
- The page-table walk inside `user_mem_check`, including an overflowing `s + len`. The check is modelled as "every address of the range is mapped with `PTE_U`". The diagnostic line that `user_mem_assert` prints before destroying the environment comes from kern/pmap.c, which is not part of this model.
- Collaborators.Envid2Env: the permission rule of kern/env.c is not part of this model. The body is one rule that meets the contract: id 0 is `curenv`; otherwise the id must be live and be `curenv` or one of its children. The handlers' properties use only the contract.
- The teardown done by `env_destroy` (freeing pages, rescheduling). Only its removal of the environment, and its not returning for `curenv`, are modelled.
- The console device behind `cons_getc`. It is modelled as a queue of non-NUL bytes, since the input path never queues a NUL.
- The text formatting of `cprintf`. The two diagnostics are recorded as structured outputs carrying the ids they print, not as `%08x` strings.
- The numeric values of `E_INVAL` and `E_BAD_ENV`.
- Trap entry and return to user mode, which live outside this file. There is no concurrency in this code.
