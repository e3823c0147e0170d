/** The WebSocket broadcast hub (`KnuxWebSocketServerFactory` in server2.py):
    an ordered client list with idempotent register/unregister, fan-out of a
    message to every client in list order, and the heartbeat tick counter.
    A send is recorded as a `Delivery` in an output trace; the wire framing
    and UTF-8 encoding of the frame are not modelled. */
module Hub {
  import opened Strings

  /** A connected WebSocket peer. `conn` stands for the identity of the
      protocol object (two connections from one address are distinct). */
  datatype Client = Client(conn: nat, peer: string)

  /** One `sendMessage` (or `sendPreparedMessage`) to one client. */
  datatype Delivery = Delivery(to: Client, text: string)

  /** The factory's state: `self.clients` and `self.tickcount`. */
  datatype Hub = Hub(clients: seq<Client>, tickcount: nat)

  /** What one operation leaves behind: the new state and the sends it made. */
  datatype Step = Step(hub: Hub, out: seq<Delivery>)

  predicate NoDup<T(==)>(s: seq<T>) {
    forall i, j :: 0 <= i < j < |s| ==> s[i] != s[j]
  }

  /** The clients in a list, forgetting order. */
  function Members(s: seq<Client>): set<Client> {
    set x | x in s
  }

  /** The entries of `s` other than `x`, in their original order. */
  function Without<T(==)>(s: seq<T>, x: T): (r: seq<T>)
    decreases |s|
  {
    if |s| == 0 then []
    else if s[0] == x then Without(s[1..], x)
    else [s[0]] + Without(s[1..], x)
  }

  // ---------------- registry ----------------

  /** `register(client)`: append the client unless it is already present. */
  function Register(h: Hub, c: Client): (h': Hub)
    ensures h'.tickcount == h.tickcount
    ensures c in h'.clients
    ensures Members(h'.clients) == Members(h.clients) + {c}
    ensures c in h.clients ==> h'.clients == h.clients
    ensures c !in h.clients ==> |h'.clients| == |h.clients| + 1 && h'.clients[..|h.clients|] == h.clients
    ensures NoDup(h.clients) ==> NoDup(h'.clients)
  {
    if c in h.clients then h else h.(clients := h.clients + [c])
  }

  /** `r` is `s` with the first occurrence of `x`, at index `k`, cut out. */
  predicate RemovedFirstAt<T(==)>(s: seq<T>, x: T, r: seq<T>, k: int) {
    0 <= k < |s| && s[k] == x && x !in s[..k] && r == s[..k] + s[k + 1..]
  }

  /** Python's `list.remove(x)`: drop the first occurrence of `x`. */
  function RemoveFirst<T(==)>(s: seq<T>, x: T): (r: seq<T>)
    requires x in s
    ensures |r| == |s| - 1
    ensures multiset(r) == multiset(s) - multiset{x}
    ensures exists k :: RemovedFirstAt(s, x, r, k)
    decreases |s|
  {
    assert s == [s[0]] + s[1..];
    if s[0] == x then
      assert RemovedFirstAt(s, x, s[1..], 0);
      s[1..]
    else
      var rest := RemoveFirst(s[1..], x);
      var k :| RemovedFirstAt(s[1..], x, rest, k);
      RemovedFirstAtCons(s, x, rest, k);
      [s[0]] + rest
  }

  /** A removal in the tail is a removal one index later in the whole list. */
  lemma RemovedFirstAtCons<T>(s: seq<T>, x: T, rest: seq<T>, k: int)
    requires |s| > 0 && s[0] != x && RemovedFirstAt(s[1..], x, rest, k)
    ensures RemovedFirstAt(s, x, [s[0]] + rest, k + 1)
  {
    assert s[..k + 1] == [s[0]] + s[1..][..k];
    assert s[k + 2..] == s[1..][k + 1..];
  }

  /** `unregister(client)`: remove the client if it is present. */
  function Unregister(h: Hub, c: Client): (h': Hub)
    ensures h'.tickcount == h.tickcount
    ensures c !in h.clients ==> h' == h
    ensures NoDup(h.clients) ==> c !in h'.clients && NoDup(h'.clients)
    ensures NoDup(h.clients) ==> h'.clients == Without(h.clients, c)
    ensures NoDup(h.clients) ==> Members(h'.clients) == Members(h.clients) - {c}
  {
    if c in h.clients then
      var r := RemoveFirst(h.clients, c);
      assert NoDup(h.clients) ==> r == Without(h.clients, c) by {
        if NoDup(h.clients) {
          RemoveFirstOfDistinct(h.clients, c);
        }
      }
      WithoutFacts(h.clients, c);
      h.(clients := r)
    else
      WithoutAbsent(h.clients, c);
      h
  }

  /** `Without` keeps every other entry and drops every copy of `x`; it keeps
      a duplicate-free list duplicate-free. */
  lemma {:induction false} WithoutFacts<T>(s: seq<T>, x: T)
    ensures x !in Without(s, x)
    ensures forall y :: y in Without(s, x) <==> y in s && y != x
    ensures NoDup(s) ==> NoDup(Without(s, x))
    decreases |s|
  {
    if |s| > 0 {
      WithoutFacts(s[1..], x);
      if NoDup(s) {
        assert NoDup(s[1..]) by {
          forall i, j | 0 <= i < j < |s[1..]| ensures s[1..][i] != s[1..][j] {
            assert s[1..][i] == s[i + 1] && s[1..][j] == s[j + 1];
          }
        }
        var w := Without(s, x);
        if s[0] != x {
          assert s[0] !in s[1..] by {
            forall k | 0 <= k < |s[1..]| ensures s[1..][k] != s[0] {
              assert s[1..][k] == s[k + 1];
            }
          }
          forall i, j | 0 <= i < j < |w| ensures w[i] != w[j] {
            if i == 0 {
              assert w[j] in Without(s[1..], x);
            } else {
              assert w[i] == Without(s[1..], x)[i - 1];
              assert w[j] == Without(s[1..], x)[j - 1];
            }
          }
        }
      }
    }
  }

  /** Removing something absent changes nothing. */
  lemma {:induction false} WithoutAbsent<T>(s: seq<T>, x: T)
    requires x !in s
    ensures Without(s, x) == s
    decreases |s|
  {
    if |s| > 0 {
      WithoutAbsent(s[1..], x);
      assert s == [s[0]] + s[1..];
    }
  }

  /** On a duplicate-free list, removing the first occurrence is removing
      every occurrence: the others keep their relative order. */
  lemma {:induction false} RemoveFirstOfDistinct<T>(s: seq<T>, x: T)
    requires x in s && NoDup(s)
    ensures RemoveFirst(s, x) == Without(s, x)
    decreases |s|
  {
    assert NoDup(s[1..]) by {
      forall i, j | 0 <= i < j < |s[1..]| ensures s[1..][i] != s[1..][j] {
        assert s[1..][i] == s[i + 1] && s[1..][j] == s[j + 1];
      }
    }
    if s[0] == x {
      assert x !in s[1..] by {
        forall k | 0 <= k < |s[1..]| ensures s[1..][k] != x {
          assert s[1..][k] == s[k + 1];
        }
      }
      WithoutAbsent(s[1..], x);
    } else {
      RemoveFirstOfDistinct(s[1..], x);
    }
  }

  /** A registry operation as the transport reports it: `onOpen` registers,
      `connectionLost` unregisters. */
  datatype RegistryOp = Open(c: Client) | Lost(c: Client)

  function Apply(h: Hub, op: RegistryOp): Hub {
    match op
    case Open(c) => Register(h, c)
    case Lost(c) => Unregister(h, c)
  }

  function Replay(h: Hub, ops: seq<RegistryOp>): Hub
    decreases |ops|
  {
    if |ops| == 0 then h else Replay(Apply(h, ops[0]), ops[1..])
  }

  /** The same operations applied to a mathematical set. */
  function ReplaySet(s: set<Client>, ops: seq<RegistryOp>): set<Client>
    decreases |ops|
  {
    if |ops| == 0 then s
    else
      match ops[0]
      case Open(c) => ReplaySet(s + {c}, ops[1..])
      case Lost(c) => ReplaySet(s - {c}, ops[1..])
  }

  /** Any run of opens and losses keeps the client list free of duplicates,
      and its members are exactly the set obtained by applying the same
      additions and removals to a set. */
  lemma {:induction false} ReplayMatchesSet(h: Hub, ops: seq<RegistryOp>)
    requires NoDup(h.clients)
    ensures NoDup(Replay(h, ops).clients)
    ensures Members(Replay(h, ops).clients) == ReplaySet(Members(h.clients), ops)
    ensures Replay(h, ops).tickcount == h.tickcount
    decreases |ops|
  {
    if |ops| > 0 {
      var h1 := Apply(h, ops[0]);
      ReplayMatchesSet(h1, ops[1..]);
    }
  }

  // ---------------- broadcast ----------------

  /** `broadcast(msg)`: one send of `msg` to each client, in list order. */
  function Broadcast(clients: seq<Client>, msg: string): (out: seq<Delivery>)
    ensures |out| == |clients|
    ensures forall i :: 0 <= i < |out| ==> out[i].to == clients[i] && out[i].text == msg
    decreases |clients|
  {
    if |clients| == 0 then []
    else [Delivery(clients[0], msg)] + Broadcast(clients[1..], msg)
  }

  /** How many times `d` occurs in a trace. */
  function Count(out: seq<Delivery>, d: Delivery): nat
    decreases |out|
  {
    if |out| == 0 then 0
    else (if out[0] == d then 1 else 0) + Count(out[1..], d)
  }

  /** A delivery absent from a trace occurs zero times in it. */
  lemma {:induction false} CountAbsent(out: seq<Delivery>, d: Delivery)
    requires d !in out
    ensures Count(out, d) == 0
    decreases |out|
  {
    if |out| > 0 {
      CountAbsent(out[1..], d);
    }
  }

  /** With a duplicate-free client list, every registered client receives the
      message exactly once, and nobody else receives anything. */
  lemma {:induction false} BroadcastExactlyOnce(clients: seq<Client>, msg: string, c: Client)
    requires NoDup(clients)
    ensures c in clients ==> Count(Broadcast(clients, msg), Delivery(c, msg)) == 1
    ensures c !in clients ==> forall d :: d in Broadcast(clients, msg) ==> d.to != c
    decreases |clients|
  {
    var out := Broadcast(clients, msg);
    if c !in clients {
      forall d | d in out ensures d.to != c {
        var k :| 0 <= k < |out| && out[k] == d;
        assert d.to == clients[k];
      }
    } else {
      assert NoDup(clients[1..]) by {
        forall i, j | 0 <= i < j < |clients[1..]| ensures clients[1..][i] != clients[1..][j] {
          assert clients[1..][i] == clients[i + 1] && clients[1..][j] == clients[j + 1];
        }
      }
      var rest := Broadcast(clients[1..], msg);
      assert out[1..] == rest;
      assert out[0] == Delivery(clients[0], msg);
      if clients[0] == c {
        assert c !in clients[1..] by {
          forall k | 0 <= k < |clients[1..]| ensures clients[1..][k] != c {
            assert clients[1..][k] == clients[k + 1];
          }
        }
        BroadcastExactlyOnce(clients[1..], msg, c);
        CountAbsent(rest, Delivery(c, msg));
      } else {
        assert c in clients[1..];
        BroadcastExactlyOnce(clients[1..], msg, c);
      }
    }
  }

  /** The result of `prepareMessage`: the frame built once per broadcast. */
  datatype PreparedMessage = PreparedMessage(text: string)

  function PrepareMessage(msg: string): PreparedMessage {
    PreparedMessage(msg)
  }

  /** `sendPreparedMessage(prepared)` to each client in turn. */
  function SendPrepared(clients: seq<Client>, p: PreparedMessage): (out: seq<Delivery>)
    ensures |out| == |clients|
    ensures forall i :: 0 <= i < |out| ==> out[i] == Delivery(clients[i], p.text)
    decreases |clients|
  {
    if |clients| == 0 then []
    else [Delivery(clients[0], p.text)] + SendPrepared(clients[1..], p)
  }

  /** `KnuxPreparedWebSocketServerFactory.broadcast(msg)`: it makes exactly
      the same per-client sends as the plain broadcast. */
  function PreparedBroadcast(clients: seq<Client>, msg: string): (out: seq<Delivery>)
    ensures out == Broadcast(clients, msg)
  {
    SendPrepared(clients, PrepareMessage(msg))
  }

  // ---------------- heartbeat ----------------

  /** `"tick %d from server" % n`. */
  function TickMessage(n: nat): string {
    "tick " + NatToString(n) + " from server"
  }

  /** Different tick numbers give different tick messages. */
  lemma TickMessageInjective(m: nat, n: nat)
    requires TickMessage(m) == TickMessage(n)
    ensures m == n
  {
    var a, b := NatToString(m), NatToString(n);
    assert |a| == |b|;
    assert a == TickMessage(m)[5..5 + |a|];
    assert b == TickMessage(n)[5..5 + |b|];
    NatToStringInjective(m, n);
  }

  /** `tick()`: bump the counter, then broadcast the new count to the
      clients registered now. Rescheduling is outside the model. */
  function Tick(h: Hub): (s: Step)
    ensures s.hub.tickcount == h.tickcount + 1
    ensures s.hub.clients == h.clients
    ensures |s.out| == |h.clients|
    ensures forall i :: 0 <= i < |s.out| ==>
              s.out[i].to == h.clients[i] && s.out[i].text == TickMessage(s.hub.tickcount)
  {
    var h' := h.(tickcount := h.tickcount + 1);
    Step(h', Broadcast(h.clients, TickMessage(h'.tickcount)))
  }

  /** The constructor: empty client list, counter 0, then one tick. */
  function NewHub(): (s: Step)
    ensures s.hub.clients == [] && s.hub.tickcount == 1
    ensures s.out == []
  {
    Tick(Hub([], 0))
  }

  /** The messages broadcast by `k` consecutive ticks. Each is written as
      `TickMessage` of the next count; `Tick`'s ensures is what ties that text
      to the sends a tick actually makes. */
  function TickMessages(h: Hub, k: nat): seq<string>
    decreases k
  {
    if k == 0 then [] else [TickMessage(h.tickcount + 1)] + TickMessages(Tick(h).hub, k - 1)
  }

  function Ticks(h: Hub, k: nat): Hub
    decreases k
  {
    if k == 0 then h else Ticks(Tick(h).hub, k - 1)
  }

  /** `k` ticks raise the counter by exactly `k`, announce the numbers
      following the old count in order, and never repeat a message. */
  lemma {:induction false} TicksCountUp(h: Hub, k: nat)
    ensures Ticks(h, k).tickcount == h.tickcount + k
    ensures Ticks(h, k).clients == h.clients
    ensures |TickMessages(h, k)| == k
    ensures forall j :: 0 <= j < k ==> TickMessages(h, k)[j] == TickMessage(h.tickcount + j + 1)
    ensures NoDup(TickMessages(h, k))
    decreases k
  {
    if k > 0 {
      var h1 := Tick(h).hub;
      TicksCountUp(h1, k - 1);
      var ms := TickMessages(h, k);
      assert ms[1..] == TickMessages(h1, k - 1);
      forall i, j | 0 <= i < j < k ensures ms[i] != ms[j] {
        if ms[i] == ms[j] {
          TickMessageInjective(h.tickcount + i + 1, h.tickcount + j + 1);
        }
      }
    }
  }
}
