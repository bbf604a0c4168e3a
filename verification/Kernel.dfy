/**
  The operating system under the registry. Every call may return anything its
  contract allows: `accept` some descriptor that is not open, `recv` any bytes,
  `send` any non-empty part, `close` success or failure, and memory for any
  number of strings. A ghost log keeps what was reported.
 */
module Kernel {
  import opened Bytes
  import opened RegistryModel
  import opened RegistryLog

  class Kernel {
    var open: set<int>
    // bytes sent on each descriptor since it was last returned by accept
    var wire: map<int, Bytes>
    ghost var log: seq<Call>
    ghost var sendFailed: bool

    ghost function Sent(fd: int): Bytes
      reads this
    {
      if fd in wire then wire[fd] else []
    }

    method Accept() returns (fd: int, addr: Addr)
      modifies this
      ensures log == old(log) + [AcceptCall(fd, addr)] && sendFailed == old(sendFailed)
      ensures fd == -1 ==> open == old(open) && wire == old(wire)
      ensures fd != -1 ==> 0 <= fd && fd !in old(open)
      ensures fd != -1 ==> open == old(open) + {fd} && wire == old(wire)[fd := []]
    {
      addr := *;
      fd := *;
      if fd < 0 || fd in open {
        fd := -1;
      } else {
        open := open + {fd};
        wire := wire[fd := []];
      }
      log := log + [AcceptCall(fd, addr)];
    }

    method Close(fd: int) returns (ok: bool)
      modifies this
      ensures log == old(log) + [CloseCall(fd, ok)] && sendFailed == old(sendFailed)
      ensures open == if ok then old(open) - {fd} else old(open)
      ensures wire == old(wire)
    {
      ok := *;
      if ok {
        open := open - {fd};
      }
      log := log + [CloseCall(fd, ok)];
    }

    /** Any bytes at the front of the buffer, or none at a close or an error. */
    method Recv(fd: int, buf: array<byte>) returns (n: int)
      modifies this`log, buf
      ensures -1 <= n <= buf.Length && buf[if n < 0 then 0 else n..] == old(buf[if n < 0 then 0 else n..])
      ensures log == old(log) + [if n > 0 then RecvCall(fd, buf[..n], buf[n..]) else EndCall(fd)]
    {
      n := *;
      if n < -1 || n > buf.Length {
        n := -1;
      }
      var k := 0;
      while k < n
        invariant log == old(log)
        invariant buf[if n < 0 then 0 else n..] == old(buf[if n < 0 then 0 else n..])
      {
        buf[k] := *;
        k := k + 1;
      }
      log := log + [if n > 0 then RecvCall(fd, buf[..n], buf[n..]) else EndCall(fd)];
    }

    /** How many strings can be allocated while a request is handled. */
    method Memory() returns (strings: nat)
      modifies this`log
      ensures log == old(log) + [MemoryCall(strings)]
    {
      strings := *;
      log := log + [MemoryCall(strings)];
    }

    method Send(fd: int, data: Bytes) returns (n: int)
      requires data != []
      modifies this`wire, this`sendFailed
      ensures sendFailed == (old(sendFailed) || n == -1)
      ensures n == -1 ==> wire == old(wire)
      ensures n != -1 ==> 0 < n <= |data| && wire == old(wire)[fd := old(Sent(fd)) + data[..n]]
    {
      n := *;
      if n < 1 || n > |data| {
        n := -1;
        sendFailed := true;
      } else {
        wire := wire[fd := (if fd in wire then wire[fd] else []) + data[..n]];
      }
    }

    /** Fails when a descriptor of the set is not open, as POSIX has it (EBADF). */
    method Pselect(socks: set<int>) returns (num: int, ready: set<int>)
      modifies this`log
      ensures num >= 0 ==> socks <= open
      ensures ready <= socks
      ensures log == old(log) + [SelectCall(num, ready)]
    {
      num := *;
      if !(socks <= open) {
        num := -1;
      }
      ready := *;
      if !(ready <= socks) {
        ready := {};
      }
      log := log + [SelectCall(num, ready)];
    }
  }
}
