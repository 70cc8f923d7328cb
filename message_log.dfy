/** The per-room message log: the record a post builds, the expiry it fixes at
    write time, and the read-time filter that hides expired records. */
module MessageLog {
  import opened RelayTypes

  /** A stored message. `expiresAt` is an absolute instant in epoch
      milliseconds; None means the message never expires. */
  datatype Message = Message(
    encrypted: string,
    isMe: bool,
    at: string,
    ratchetIndex: int,
    senderAlias: string,
    signature: string,
    expiresAt: Option<real>)

  /** The body of `POST /api/messages` once parsed. `expiresIn` is in seconds;
      None stands for absent, null or not a number. */
  datatype MessageInput = MessageInput(
    roomId: Option<string>,
    encrypted: Option<string>,
    isMe: Option<bool>,
    at: Option<string>,
    ratchetIndex: Option<int>,
    senderAlias: Option<string>,
    signature: Option<string>,
    expiresIn: Option<real>)

  /** The absolute expiry a post fixes: a positive TTL lands strictly after
      `now`, exactly `expiresIn` seconds later; any other TTL means "never". */
  function ExpiryOf(expiresIn: Option<real>, now: int): (r: Option<real>)
    ensures r.Some? <==> expiresIn.Some? && expiresIn.value > 0.0
    ensures r.Some? ==> r.value > now as real && r.value - now as real == expiresIn.value * 1000.0
  {
    if expiresIn.Some? && expiresIn.value > 0.0 then Some(now as real + expiresIn.value * 1000.0) else None
  }

  /** The record appended by a valid post at time `now`; `clock` is the
      server's ISO timestamp text for that instant. */
  function MakeRecord(input: MessageInput, now: int, clock: string): (m: Message)
    requires input.encrypted.Some?
    ensures m.encrypted == input.encrypted.value
    ensures m.isMe <==> input.isMe == Some(true)
    ensures Blank(input.at) ==> m.at == clock
    ensures !Blank(input.at) ==> m.at == input.at.value
    ensures input.ratchetIndex.None? ==> m.ratchetIndex == 0
    ensures input.ratchetIndex.Some? ==> m.ratchetIndex == input.ratchetIndex.value
    ensures input.senderAlias.None? ==> m.senderAlias == ""
    ensures input.senderAlias.Some? ==> m.senderAlias == input.senderAlias.value
    ensures input.signature.None? ==> m.signature == ""
    ensures input.signature.Some? ==> m.signature == input.signature.value
    ensures m.expiresAt == ExpiryOf(input.expiresIn, now)
  {
    Message(
      input.encrypted.value,
      input.isMe.GetOr(false),
      if Blank(input.at) then clock else input.at.value,
      input.ratchetIndex.GetOr(0),
      input.senderAlias.GetOr(""),
      input.signature.GetOr(""),
      ExpiryOf(input.expiresIn, now))
  }

  /** A record is shown at `now` when it never expires or expires strictly later. */
  predicate Live(m: Message, now: int) {
    m.expiresAt.None? || m.expiresAt.value > now as real
  }

  /** `list.filter(m => m.expiresAt == null || m.expiresAt > now)`: the live
      records, in append order, each as many times as it is stored, and
      nothing else. */
  function ActiveOnly(log: seq<Message>, now: int): (r: seq<Message>)
    ensures |r| <= |log|
    ensures forall m :: m in r <==> m in log && Live(m, now)
    ensures forall m :: multiset(r)[m] == if Live(m, now) then multiset(log)[m] else 0
    ensures IsSubsequence(r, log)
  {
    if log == [] then []
    else
      assert log == [log[0]] + log[1..];
      if Live(log[0], now) then [log[0]] + ActiveOnly(log[1..], now)
      else ActiveOnly(log[1..], now)
  }

  /** Filtering a log that was appended to is filtering each part. */
  lemma {:induction false} ActiveOnlyAppend(a: seq<Message>, b: seq<Message>, now: int)
    ensures ActiveOnly(a + b, now) == ActiveOnly(a, now) + ActiveOnly(b, now)
  {
    if a == [] {
      assert a + b == b;
    } else {
      assert (a + b)[0] == a[0];
      assert (a + b)[1..] == a[1..] + b;
      ActiveOnlyAppend(a[1..], b, now);
    }
  }

  /** Expiry is final: whatever is shown at a later instant was shown earlier. */
  lemma {:induction false} ActiveOnlyShrinks(log: seq<Message>, earlier: int, later: int)
    requires earlier <= later
    ensures IsSubsequence(ActiveOnly(log, later), ActiveOnly(log, earlier))
  {
    if log != [] {
      ActiveOnlyShrinks(log[1..], earlier, later);
      var l, e := ActiveOnly(log[1..], later), ActiveOnly(log[1..], earlier);
      if Live(log[0], later) {
        assert ActiveOnly(log, later) == [log[0]] + l;
        assert ActiveOnly(log, earlier) == [log[0]] + e;
        assert ([log[0]] + l)[1..] == l;
      } else if Live(log[0], earlier) {
        var s := ActiveOnly(log, later);
        if s != [] {
          assert ([log[0]] + e)[1..] == e;
        }
      }
    }
  }

  /** A log in which nothing has an expiry is always shown in full. */
  lemma {:induction false} ActiveOnlyNoExpiry(log: seq<Message>, now: int)
    requires forall i :: 0 <= i < |log| ==> log[i].expiresAt.None?
    ensures ActiveOnly(log, now) == log
  {
    if log != [] {
      ActiveOnlyNoExpiry(log[1..], now);
    }
  }

  /** A freshly built record is shown exactly until its TTL has run out; without
      a positive TTL it is shown at every instant. */
  lemma RecordLiveness(input: MessageInput, now: int, clock: string, t: int)
    requires input.encrypted.Some?
    ensures Live(MakeRecord(input, now, clock), t) <==>
      (input.expiresIn.None? || input.expiresIn.value <= 0.0
       || (t as real) < now as real + input.expiresIn.value * 1000.0)
  {
  }
}
