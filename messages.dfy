/** The chat log's message records, the per-reader visibility filter and the
    `limit` cut that GET /messages applies to it. */
module Messages {

  datatype Option<T> = None | Some(value: T)

  function Min(a: int, b: int): int {
    if a <= b then a else b
  }

  /** The `type` of a stored message: a join/leave notice the server writes,
      a message for everyone, or a message for one recipient. */
  datatype Kind = StatusNotice | Chat | PrivateChat

  /** The string stored in a message's `type` field. */
  function KindName(k: Kind): string {
    match k
    case StatusNotice => "status"
    case Chat => "message"
    case PrivateChat => "private_message"
  }

  /** A stored message; `time` is the server's HH:mm:ss stamp. */
  datatype Message = Message(from: string, to: string, text: string, kind: Kind, time: string)

  /** The filter GET /messages applies for the requester `reader`. */
  predicate Visible(m: Message, reader: string) {
    m.to == reader || m.from == reader || m.kind == StatusNotice || m.kind == Chat
  }

  /** Only a private message is hidden from anyone, and it is shown to exactly its two parties. */
  lemma VisibleCases(m: Message, reader: string)
    ensures m.kind != PrivateChat ==> Visible(m, reader)
    ensures m.kind == PrivateChat ==> (Visible(m, reader) <==> reader == m.from || reader == m.to)
  {
  }

  /** `a` is `b` with some elements deleted: an order-preserving subsequence. */
  predicate IsSubsequence<T(==)>(a: seq<T>, b: seq<T>)
    decreases |b|
  {
    if b == [] then a == []
    else
      (a != [] && a[|a| - 1] == b[|b| - 1] && IsSubsequence(a[..|a| - 1], b[..|b| - 1]))
      || IsSubsequence(a, b[..|b| - 1])
  }

  /** Dropping a prefix of a subsequence leaves a subsequence. */
  lemma {:induction false} SuffixOfSubsequence<T>(a: seq<T>, b: seq<T>, k: nat)
    requires IsSubsequence(a, b) && k <= |a|
    ensures IsSubsequence(a[k..], b)
    decreases |b|
  {
    if b == [] {
    } else if a != [] && a[|a| - 1] == b[|b| - 1] && IsSubsequence(a[..|a| - 1], b[..|b| - 1]) {
      if k == |a| {
        EmptySubsequence(b);
      } else {
        SuffixOfSubsequence(a[..|a| - 1], b[..|b| - 1], k);
        assert a[k..][..|a[k..]| - 1] == a[..|a| - 1][k..];
      }
    } else {
      SuffixOfSubsequence(a, b[..|b| - 1], k);
    }
  }

  lemma {:induction false} EmptySubsequence<T>(b: seq<T>)
    ensures IsSubsequence([], b)
    decreases |b|
  {
    if b != [] {
      EmptySubsequence(b[..|b| - 1]);
    }
  }

  /** Array.prototype.filter with the visibility predicate: the messages of
      `log` that `reader` may see, in log order. */
  function VisibleTo(log: seq<Message>, reader: string): (v: seq<Message>)
    ensures |v| <= |log|
    ensures forall i :: 0 <= i < |v| ==> Visible(v[i], reader)
    decreases |log|
  {
    if log == [] then []
    else
      var init, last := log[..|log| - 1], log[|log| - 1];
      VisibleTo(init, reader) + if Visible(last, reader) then [last] else []
  }

  /** The filter keeps every visible message and only those. */
  lemma {:induction false} VisibleToMembers(log: seq<Message>, reader: string)
    ensures forall m :: m in VisibleTo(log, reader) <==> m in log && Visible(m, reader)
    decreases |log|
  {
    if log != [] {
      var init, last := log[..|log| - 1], log[|log| - 1];
      VisibleToMembers(init, reader);
      assert log == init + [last];
    }
  }

  /** The filter keeps each visible message as often as it occurs in the log. */
  lemma {:induction false} VisibleToCounts(log: seq<Message>, reader: string)
    ensures forall m :: multiset(VisibleTo(log, reader))[m] == if Visible(m, reader) then multiset(log)[m] else 0
    decreases |log|
  {
    if log != [] {
      var init, last := log[..|log| - 1], log[|log| - 1];
      VisibleToCounts(init, reader);
      assert log == init + [last];
      assert multiset(log) == multiset(init) + multiset{last};
      var kept := if Visible(last, reader) then [last] else [];
      assert multiset(VisibleTo(log, reader)) == multiset(VisibleTo(init, reader)) + multiset(kept);
    }
  }

  /** The visible messages keep their relative order in the log. */
  lemma {:induction false} VisibleToIsSubsequence(log: seq<Message>, reader: string)
    ensures IsSubsequence(VisibleTo(log, reader), log)
    decreases |log|
  {
    if log != [] {
      var init, last := log[..|log| - 1], log[|log| - 1];
      VisibleToIsSubsequence(init, reader);
      var v := VisibleTo(log, reader);
      if Visible(last, reader) {
        assert v[..|v| - 1] == VisibleTo(init, reader);
      } else {
        assert v == VisibleTo(init, reader);
      }
    }
  }

  /** Array.prototype.reverse. */
  function Reverse<T>(s: seq<T>): (r: seq<T>)
    ensures |r| == |s|
    ensures forall i :: 0 <= i < |s| ==> r[i] == s[|s| - 1 - i]
  {
    if s == [] then [] else [s[|s| - 1]] + Reverse(s[..|s| - 1])
  }

  /** Array.prototype.slice(0, n) for an integer n: the first n elements (all
      of them when n is larger); a negative n counts from the end, so all but
      the last -n (none when -n is larger). */
  function SliceFromStart<T>(s: seq<T>, n: int): seq<T> {
    if n >= 0 then (if n <= |s| then s[..n] else s)
    else if |s| + n >= 0 then s[..|s| + n]
    else []
  }

  /** How many of `len` messages a numeric limit `k` keeps. */
  function KeptCount(len: nat, k: int): (c: nat)
    ensures c <= len
  {
    if k >= 0 then Min(k, len) else if len + k >= 0 then len + k else 0
  }

  /** The `limit` cut of GET /messages: with a numeric limit k the list is
      reversed, cut by slice(0, k) and reversed back; without one it is
      returned whole. */
  function Window<T>(s: seq<T>, limit: Option<int>): (r: seq<T>)
    ensures limit.None? ==> r == s
    ensures limit.Some? ==> r == s[|s| - KeptCount(|s|, limit.value)..]
  {
    match limit
    case None => s
    case Some(k) =>
      var r := Reverse(SliceFromStart(Reverse(s), k));
      assert r == s[|s| - KeptCount(|s|, k)..];
      r
  }

  /** A limit k >= 0 keeps the k most recent messages in log order (all of them
      when k is at least their number, none when k is 0); a negative limit
      drops the -k oldest. */
  lemma WindowCases<T>(s: seq<T>, k: int)
    ensures 0 <= k <= |s| ==> Window(s, Some(k)) == s[|s| - k..] && |Window(s, Some(k))| == k
    ensures k >= |s| ==> Window(s, Some(k)) == s
    ensures Window(s, Some(0)) == []
    ensures -|s| <= k < 0 ==> Window(s, Some(k)) == s[-k..]
    ensures k <= -|s| ==> Window(s, Some(k)) == []
  {
    var r := Window(s, Some(k));
    if k >= 0 {
      assert KeptCount(|s|, k) == Min(k, |s|);
    } else if |s| + k >= 0 {
      assert r == s[-k..];
    } else {
      assert r == [];
    }
  }

  /** The window of a subsequence of `b` is itself a subsequence of `b`. */
  lemma WindowKeepsOrder<T>(s: seq<T>, b: seq<T>, limit: Option<int>)
    requires IsSubsequence(s, b)
    ensures IsSubsequence(Window(s, limit), b)
  {
    SuffixOfSubsequence(s, b, |s| - |Window(s, limit)|);
    assert s[|s| - |Window(s, limit)|..] == Window(s, limit);
  }
}
