/** The decisions of the IRC bot (`KnuxIRCBot` in server2.py): which chat
    lines reach the hub, and how a colliding nickname is altered. The IRC
    protocol, joining, logging and reconnection are outside the model. */
module Irc {
  import opened Options
  import opened Gate
  import opened Hub

  /** The label put in front of forwarded chat lines. */
  const Tag: string := "KNUK TATS: "

  /** The message `privmsg` hands to the hub's `broadcast`, if any: private
      messages (addressed to the bot's own nick) are dropped, and channel
      lines are forwarded with the tag only when the gate accepts them. */
  function PrivmsgDecision(nickname: string, channel: string, msg: string): (r: Option<string>)
    ensures channel == nickname ==> r == None
    ensures r.Some? <==> channel != nickname && Shouty44(msg)
    ensures r.Some? ==> r.value == Tag + msg && |r.value| == 20
  {
    if channel == nickname then None
    else if ShouldTat(msg) then Some(Tag + msg)
    else None
  }

  /** The sends one `privmsg` causes, given the hub's clients at that moment:
      one tagged copy per client, in list order, when the line is forwarded,
      and none otherwise. */
  function Privmsg(h: Hub, nickname: string, channel: string, msg: string): (out: seq<Delivery>)
    ensures |out| == (if channel != nickname && ShouldTat(msg) then |h.clients| else 0)
    ensures forall i :: 0 <= i < |out| ==> out[i] == Delivery(h.clients[i], Tag + msg)
  {
    match PrivmsgDecision(nickname, channel, msg)
    case None => []
    case Some(m) => Broadcast(h.clients, m)
  }

  /** A private message never reaches a client; a channel line reaches every
      client exactly once, tagged, when the gate accepts it, and nobody
      otherwise. */
  lemma PrivmsgSends(h: Hub, nickname: string, channel: string, msg: string)
    requires NoDup(h.clients)
    ensures channel == nickname ==> Privmsg(h, nickname, channel, msg) == []
    ensures channel != nickname && ShouldTat(msg) ==>
              forall c :: c in h.clients ==> Count(Privmsg(h, nickname, channel, msg), Delivery(c, Tag + msg)) == 1
    ensures !ShouldTat(msg) ==> Privmsg(h, nickname, channel, msg) == []
  {
    if channel != nickname && ShouldTat(msg) {
      forall c | c in h.clients
        ensures Count(Privmsg(h, nickname, channel, msg), Delivery(c, Tag + msg)) == 1
      {
        BroadcastExactlyOnce(h.clients, Tag + msg, c);
      }
    }
  }

  /** The effective `alterCollidedNick`: the second definition in the class
      body rebinds the name, so the caret suffix wins over the underscore. */
  function AlterCollidedNick(nickname: string): (r: string)
    ensures |r| == |nickname| + 1
    ensures r[..|nickname|] == nickname
    ensures r[|nickname|] == '^'
  {
    nickname + "^"
  }

  /** The nickname tried after `k` collisions in a row: the original
      followed by `k` carets. */
  function NickAfter(nickname: string, k: nat): (r: string)
    ensures |r| == |nickname| + k
    ensures r[..|nickname|] == nickname
    ensures forall i :: |nickname| <= i < |nickname| + k ==> r[i] == '^'
    decreases k
  {
    if k == 0 then nickname
    else
      var prev := NickAfter(nickname, k - 1);
      var cur := AlterCollidedNick(prev);
      assert forall i :: |nickname| <= i < |nickname| + k ==> cur[i] == '^' by {
        forall i | |nickname| <= i < |nickname| + k
          ensures cur[i] == '^'
        {
          if i < |prev| {
            assert cur[i] == cur[..|prev|][i];
          }
        }
      }
      assert cur[..|nickname|] == prev[..|nickname|];
      cur
  }

  /** No two attempts in a run of collisions repeat a nickname. */
  lemma NickAttemptsDistinct(nickname: string, i: nat, j: nat)
    requires i != j
    ensures NickAfter(nickname, i) != NickAfter(nickname, j)
  {
  }
}
