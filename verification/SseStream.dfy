// Server-sent events in transit: the client's splitter of the stream into blocks,
// src/http/StreamableHttpClientTransport.cpp, and the server's send buffer that holds events back
// until the response head is written, src/http/HttpServerImpl.cpp.
module SseStream {
  import opened Bytes

  const BREAK: bytes := [LF, LF]

  // ---- Blocks of a text ---------------------------------------------------------------------------

  // The finished blocks of a text, and what follows them.
  function Blocks(text: bytes): seq<bytes>
    decreases |text|
  {
    var found := FindFrom(text, 0, BREAK);
    if found.None? then [] else [text[..found.value]] + Blocks(text[found.value + 2..])
  }

  function Unfinished(text: bytes): bytes
    decreases |text|
  {
    var found := FindFrom(text, 0, BREAK);
    if found.None? then text else Unfinished(text[found.value + 2..])
  }

  // The text of blocks, each with its break.
  function Joined(blocks: seq<bytes>): bytes {
    if blocks == [] then [] else blocks[0] + (BREAK + Joined(blocks[1..]))
  }

  predicate BreakFree(text: bytes) {
    forall i :: 0 <= i <= |text| ==> !At(text, i, BREAK)
  }

  lemma FoundFirst(text: bytes, p: nat)
    requires At(text, p, BREAK) && forall i :: 0 <= i < p ==> !At(text, i, BREAK)
    ensures FindFrom(text, 0, BREAK) == Some(p)
  {
    hide At;
    AtLength(text, p);
    var r := FindFrom(text, 0, BREAK);
  }

  // Breaks inside a prefix are breaks of the whole.
  lemma AtPrefix(a: bytes, b: bytes, p: nat)
    ensures p + 2 <= |a| ==> (At(a, p, BREAK) <==> At(a + b, p, BREAK))
  {
    if p + 2 <= |a| {
      assert (a + b)[p + 0] == a[p + 0] && (a + b)[p + 1] == a[p + 1];
      if At(a + b, p, BREAK) { assert BREAK[0] == (a + b)[p + 0] && BREAK[1] == (a + b)[p + 1]; }
      if At(a, p, BREAK) { assert BREAK[0] == a[p + 0] && BREAK[1] == a[p + 1]; }
    }
  }

  // More text continues behind what is unfinished; nothing finished changes.
  lemma {:induction false} BlocksContinue(a: bytes, b: bytes)
    ensures Blocks(a + b) == Blocks(a) + Blocks(Unfinished(a) + b)
    ensures Unfinished(a + b) == Unfinished(Unfinished(a) + b)
    decreases |a|
  {
    hide *;
    var found := FindFrom(a, 0, BREAK);
    if found.None? {
      NoBreak(a);
      assert [] + Blocks(a + b) == Blocks(a + b);
    } else {
      var p := found.value;
      BreakCarried(a, b, p);
      BlocksUnfold(a, p);
      BlocksUnfold(a + b, p);
      var tail := a[p + 2..];
      BlocksContinue(tail, b);
      assert [a[..p]] + (Blocks(tail) + Blocks(Unfinished(tail) + b)) ==
             ([a[..p]] + Blocks(tail)) + Blocks(Unfinished(tail) + b);
    }
  }

  lemma NoBreak(a: bytes)
    requires FindFrom(a, 0, BREAK).None?
    ensures Blocks(a) == [] && Unfinished(a) == a
  {
    hide FindFrom, BREAK;
  }

  // The first break of `a` is the first break of every continuation.
  lemma BreakCarried(a: bytes, b: bytes, p: nat)
    requires FindFrom(a, 0, BREAK) == Some(p)
    ensures p + 2 <= |a| && FindFrom(a + b, 0, BREAK) == Some(p)
    ensures (a + b)[..p] == a[..p] && (a + b)[p + 2..] == a[p + 2..] + b
  {
    hide At;
    AtLength(a, p);
    forall i | 0 <= i <= p ensures At(a + b, i, BREAK) == At(a, i, BREAK) { AtPrefix(a, b, i); }
    FoundFirst(a + b, p);
  }

  lemma AtLength(text: bytes, p: nat)
    ensures At(text, p, BREAK) ==> p + 2 <= |text|
  {
  }

  lemma BlocksUnfold(text: bytes, p: nat)
    requires FindFrom(text, 0, BREAK) == Some(p)
    ensures p + 2 <= |text|
    ensures Blocks(text) == [text[..p]] + Blocks(text[p + 2..]) && Unfinished(text) == Unfinished(text[p + 2..])
  {
    hide FindFrom, At, BREAK;
    AtLength(text, p);
  }

  // The blocks are a cutting of the text: they and the rest give it back, and no block hides a break.
  lemma {:induction false} BlocksAreTheText(text: bytes)
    ensures text == Joined(Blocks(text)) + Unfinished(text)
    ensures BreakFree(Unfinished(text)) && forall block :: block in Blocks(text) ==> BreakFree(block)
    decreases |text|
  {
    hide At;
    var found := FindFrom(text, 0, BREAK);
    if found.None? {
      assert [] + text == text;
    } else {
      var p := found.value;
      BlocksUnfold(text, p);
      var rest := text[p + 2..];
      BlocksAreTheText(rest);
      CutAtBreak(text, p);
      JoinedMore(text[..p], Blocks(rest), Unfinished(rest));
    }
  }

  lemma CutAtBreak(text: bytes, p: nat)
    requires FindFrom(text, 0, BREAK) == Some(p)
    ensures p + 2 <= |text| && text == text[..p] + (BREAK + text[p + 2..]) && BreakFree(text[..p])
  {
    hide FindFrom, At, BREAK;
    AtLength(text, p);
    TextAround(text, p);
    var block, tail := text[..p], text[p..];
    forall i | 0 <= i <= |block| ensures !At(block, i, BREAK) {
      AtLength(block, i);
      AtPrefix(block, tail, i);
    }
  }

  lemma TextAround(text: bytes, p: nat)
    requires At(text, p, BREAK) && p + 2 <= |text|
    ensures text == text[..p] + text[p..] == text[..p] + (BREAK + text[p + 2..])
  {
    AtSlice(text, p, BREAK);
    SliceConcat(text, p, p + 2, |text|);
  }

  lemma JoinedMore(block: bytes, blocks: seq<bytes>, rest: bytes)
    ensures Joined([block] + blocks) + rest == block + (BREAK + (Joined(blocks) + rest))
  {
    assert ([block] + blocks)[1..] == blocks;
    ConcatAssociative(block, BREAK + Joined(blocks), rest);
    ConcatAssociative(BREAK, Joined(blocks), rest);
  }

  // ---- The splitter -------------------------------------------------------------------------------

  function Flat(chunks: seq<bytes>): bytes {
    if chunks == [] then [] else Flat(chunks[..|chunks| - 1]) + chunks[|chunks| - 1]
  }

  // What a consumer says to the last of the blocks handed to it so far.
  type Consumer = seq<bytes> -> bool

  predicate AllAccepted(blocks: seq<bytes>, accepts: Consumer) {
    forall n :: 0 < n <= |blocks| ==> accepts(blocks[..n])
  }

  // The blocks up to the first one that is refused, that one included; `n` of them are accepted.
  function HandedFrom(blocks: seq<bytes>, accepts: Consumer, n: nat): seq<bytes>
    requires n <= |blocks|
    decreases |blocks| - n
  {
    if n == |blocks| then blocks
    else if !accepts(blocks[..n + 1]) then blocks[..n + 1]
    else HandedFrom(blocks, accepts, n + 1)
  }

  function HandedOver(blocks: seq<bytes>, accepts: Consumer): seq<bytes> {
    HandedFrom(blocks, accepts, 0)
  }

  lemma {:induction false} HandedUpTo(blocks: seq<bytes>, accepts: Consumer, from: nat, n: nat)
    requires from <= n <= |blocks| && forall i :: from < i <= n ==> accepts(blocks[..i])
    ensures HandedFrom(blocks, accepts, from) == HandedFrom(blocks, accepts, n)
    decreases n - from
  {
    if from < n { HandedUpTo(blocks, accepts, from + 1, n); }
  }

  // The blocks in front of the first refusal decide, whatever would have followed.
  lemma AcceptedAreHanded(blocks: seq<bytes>, accepts: Consumer)
    requires AllAccepted(blocks, accepts)
    ensures HandedOver(blocks, accepts) == blocks
  {
    HandedUpTo(blocks, accepts, 0, |blocks|);
  }

  lemma RefusedIsLast(front: seq<bytes>, block: bytes, rest: seq<bytes>, accepts: Consumer)
    requires AllAccepted(front, accepts) && !accepts(front + [block])
    ensures var blocks := front + [block] + rest;
            HandedOver(blocks, accepts) == front + [block] && !AllAccepted(blocks, accepts)
  {
    var blocks, n := front + [block] + rest, |front|;
    assert blocks[..n + 1] == front + [block];
    assert forall i :: 0 < i <= n ==> blocks[..i] == front[..i];
    HandedUpTo(blocks, accepts, 0, n);
  }

  datatype Fed = Going | TooLong | Refused

  class SseSplitter {
    const accepts: Consumer
    var pending: bytes
    var blocks: seq<bytes>
    ghost var received: bytes

    ghost predicate Valid()
      reads this
    {
      blocks == Blocks(received) && pending == Unfinished(received) && AllAccepted(blocks, accepts)
    }

    constructor (accepts: Consumer)
      ensures Valid() && received == [] && this.accepts == accepts
    {
      this.accepts := accepts;
      pending, blocks, received := [], [], [];
    }

    // One chunk of the response. The stream ends when the pending text exceeds the limit, or with
    // the first block that is refused.
    method Feed(chunk: bytes, limit: nat) returns (result: Fed)
      requires Valid()
      modifies this
      ensures received == old(received) + chunk
      ensures result == TooLong <==> |Unfinished(old(received)) + chunk| > limit
      ensures result == TooLong ==> blocks == old(blocks)
      ensures result == Going ==> Valid()
      ensures result == Refused ==>
                blocks == HandedOver(Blocks(received), accepts) && !AllAccepted(Blocks(received), accepts)
    {
      hide FindFrom, Blocks, Unfinished, At, AllAccepted, HandedOver;
      pending := pending + chunk;
      received := received + chunk;
      if |pending| > limit { return TooLong; }
      BlocksContinue(old(received), chunk);
      while true
        invariant blocks + Blocks(pending) == Blocks(received)
        invariant Unfinished(pending) == Unfinished(received)
        invariant received == old(received) + chunk && AllAccepted(blocks, accepts)
        decreases |pending|
      {
        var found := FindFrom(pending, 0, BREAK);
        if found.None? { break; }
        BlocksUnfold(pending, found.value);
        ghost var front := blocks;
        var block := pending[..found.value];
        blocks := blocks + [block];
        pending := pending[found.value + 2..];
        assert front + ([block] + Blocks(pending)) == front + [block] + Blocks(pending);
        if !accepts(blocks) {
          RefusedIsLast(front, block, Blocks(pending), accepts);
          return Refused;
        }
        OneMoreAccepted(front, block, accepts);
      }
      NothingFinished(pending);
      assert blocks + [] == blocks;
      return Going;
    }
  }

  lemma OneMoreAccepted(front: seq<bytes>, block: bytes, accepts: Consumer)
    requires AllAccepted(front, accepts) && accepts(front + [block])
    ensures AllAccepted(front + [block], accepts)
  {
    var blocks := front + [block];
    assert blocks[..|blocks|] == blocks;
    assert forall i :: 0 < i <= |front| ==> blocks[..i] == front[..i];
  }

  lemma NothingFinished(text: bytes)
    requires FindFrom(text, 0, BREAK).None?
    ensures Blocks(text) == [] && Unfinished(text) == text
  {
  }

  // However the stream is cut into chunks, the blocks handed on are those of the whole text, up to
  // the first one that is refused.
  method SplitStream(chunks: seq<bytes>, limit: nat, accepts: Consumer) returns (result: Fed, blocks: seq<bytes>)
    ensures result != TooLong ==>
              && blocks == HandedOver(Blocks(Flat(chunks)), accepts)
              && (result == Refused <==> !AllAccepted(Blocks(Flat(chunks)), accepts))
    ensures |Flat(chunks)| <= limit ==> result != TooLong
  {
    hide Blocks, Unfinished, AllAccepted, HandedOver;
    var splitter := new SseSplitter(accepts);
    var i := 0;
    while i < |chunks|
      invariant 0 <= i <= |chunks| && fresh(splitter) && splitter.accepts == accepts
      invariant splitter.Valid() && splitter.received == Flat(chunks[..i])
      invariant |Flat(chunks[..i])| <= |Flat(chunks)|
    {
      assert chunks[..i + 1][..i] == chunks[..i];
      FlatPrefix(chunks, i + 1);
      UnfinishedIsShorter(splitter.received);
      result := splitter.Feed(chunks[i], limit);
      if result == TooLong { return TooLong, splitter.blocks; }
      if result == Refused {
        StoppedEarly(chunks, i + 1, accepts);
        return Refused, splitter.blocks;
      }
      i := i + 1;
    }
    assert chunks[..|chunks|] == chunks;
    AcceptedAreHanded(splitter.blocks, accepts);
    return Going, splitter.blocks;
  }

  // A refusal within the first chunks is the refusal of the whole text.
  lemma StoppedEarly(chunks: seq<bytes>, n: nat, accepts: Consumer)
    requires n <= |chunks| && !AllAccepted(Blocks(Flat(chunks[..n])), accepts)
    ensures HandedOver(Blocks(Flat(chunks)), accepts) == HandedOver(Blocks(Flat(chunks[..n])), accepts)
    ensures !AllAccepted(Blocks(Flat(chunks)), accepts)
  {
    hide Blocks, Unfinished, Flat, HandedOver, AllAccepted;
    var front := Flat(chunks[..n]);
    var rest := FlatRest(chunks, n);
    BlocksContinue(front, rest);
    RefusalStays(Blocks(front), Blocks(Unfinished(front) + rest), accepts);
  }

  lemma {:induction false} FlatRest(chunks: seq<bytes>, n: nat) returns (rest: bytes)
    requires n <= |chunks|
    ensures Flat(chunks) == Flat(chunks[..n]) + rest
    decreases |chunks| - n
  {
    if n == |chunks| {
      assert chunks[..n] == chunks;
      rest := [];
    } else {
      var later := FlatRest(chunks, n + 1);
      assert chunks[..n + 1][..n] == chunks[..n];
      rest := chunks[n] + later;
      ConcatAssociative(Flat(chunks[..n]), chunks[n], later);
    }
  }

  lemma RefusalStays(front: seq<bytes>, more: seq<bytes>, accepts: Consumer)
    requires !AllAccepted(front, accepts)
    ensures HandedOver(front + more, accepts) == HandedOver(front, accepts) && !AllAccepted(front + more, accepts)
  {
    var n := FirstRefused(front, accepts, 0);
    var here, all := front[..n], front + more;
    assert front == here + [front[n]] + front[n + 1..];
    assert all == here + [front[n]] + (front[n + 1..] + more);
    assert here + [front[n]] == front[..n + 1];
    assert forall i :: 0 < i <= n ==> here[..i] == front[..i];
    hide HandedOver;
    RefusedIsLast(here, front[n], front[n + 1..], accepts);
    RefusedIsLast(here, front[n], front[n + 1..] + more, accepts);
  }

  lemma {:induction false} FirstRefused(blocks: seq<bytes>, accepts: Consumer, from: nat) returns (n: nat)
    requires from <= |blocks| && !AllAccepted(blocks, accepts) && forall i :: 0 < i <= from ==> accepts(blocks[..i])
    ensures n < |blocks| && !accepts(blocks[..n + 1]) && forall i :: 0 < i <= n ==> accepts(blocks[..i])
    decreases |blocks| - from
  {
    if !accepts(blocks[..from + 1]) { n := from; } else { n := FirstRefused(blocks, accepts, from + 1); }
  }

  lemma {:induction false} FlatPrefix(chunks: seq<bytes>, n: nat)
    requires n <= |chunks|
    ensures |Flat(chunks[..n])| <= |Flat(chunks)|
    decreases |chunks| - n
  {
    if n < |chunks| {
      assert chunks[..n + 1][..n] == chunks[..n];
      FlatPrefix(chunks, n + 1);
    } else {
      assert chunks[..n] == chunks;
    }
  }

  lemma UnfinishedIsShorter(text: bytes)
    ensures |Unfinished(text)| <= |text|
  {
    BlocksAreTheText(text);
  }

  // ---- The send buffer ----------------------------------------------------------------------------

  class SseSendBuffer {
    var pending: bytes
    var ready: bool
    var sunk: bytes

    predicate Valid()
      reads this
    {
      ready ==> pending == []
    }

    constructor ()
      ensures Valid() && sunk == [] && pending == [] && !ready
    {
      pending, ready, sunk := [], false, [];
    }

    // Nothing is sent before the buffer is ready, and nothing is lost, doubled or reordered.
    method Send(data: bytes)
      requires Valid()
      modifies this
      ensures Valid() && ready == old(ready)
      ensures sunk + pending == old(sunk + pending) + data
      ensures !ready ==> sunk == old(sunk)
    {
      if !ready {
        pending := pending + data;
        ConcatAssociative(sunk, old(pending), data);
        return;
      }
      sunk := sunk + data;
      assert sunk + [] == sunk && old(sunk) + [] == old(sunk);
    }

    method MarkReady()
      requires Valid()
      modifies this
      ensures Valid() && ready && sunk == old(sunk + pending)
    {
      ready := true;
      if pending == [] {
        assert sunk + [] == sunk;
        return;
      }
      var held := pending;
      pending := [];
      sunk := sunk + held;
    }
  }
}
