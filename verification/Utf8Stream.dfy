/**
 `TextDecoder` fed piece by piece: the UTF-8 decoder of the Encoding Standard (section 8.1.1) takes one byte at a
 time and keeps an unfinished character between calls. The text does not depend on where the pieces are cut.
*/
module Utf8Stream {
  import opened Utf8

  /** The bytes read of an unfinished character. */
  predicate IsUnfinished(p: seq<Byte>) {
    p != [] ==>
      && |p| <= Continuations(p[0])
      && (|p| >= 2 ==> SecondOk(p[0], p[1])) && (|p| >= 3 ==> IsContinuation(p[2]))
  }

  type Pending = p: seq<Byte> | IsUnfinished(p)

  datatype Fed = Fed(pending: Pending, text: string)

  function FeedLead(b: Byte): Fed {
    if Continuations(b) == 0 then Fed([], [CharOf(b)])
    else if Continuations(b) < 0 then Fed([], [REPLACEMENT])
    else Fed([b], "")
  }

  /** A byte that does not continue the character replaces it and is looked at again. */
  function Feed(p: Pending, b: Byte): Fed {
    if p == [] then FeedLead(b)
    else if if |p| == 1 then SecondOk(p[0], b) else IsContinuation(b) then
      if |p| == Continuations(p[0]) then Fed([], [Finished(p, b)]) else Fed(p + [b], "")
    else
      var again := FeedLead(b);
      Fed(again.pending, [REPLACEMENT] + again.text)
  }

  function Finished(p: Pending, b: Byte): char
    requires p != [] && |p| == Continuations(p[0])
    requires if |p| == 1 then SecondOk(p[0], b) else IsContinuation(b)
  {
    DecodeOne(p + [b]).c
  }

  function FeedAll(p: Pending, bytes: seq<Byte>): Fed {
    if bytes == [] then Fed(p, "")
    else
      var n := |bytes| - 1;
      var past := FeedAll(p, bytes[..n]);
      var last := Feed(past.pending, bytes[n]);
      Fed(last.pending, past.text + last.text)
  }

  lemma LeadMeans(b: Byte, rest: seq<Byte>)
    ensures DecodeLossy([b] + rest) == FeedLead(b).text + DecodeLossy(FeedLead(b).pending + rest)
  {
    assert ([b] + rest)[1..] == rest && [] + rest == rest;
  }

  lemma FinishedMeans(p: Pending, b: Byte, rest: seq<Byte>)
    requires p != [] && |p| == Continuations(p[0])
    requires if |p| == 1 then SecondOk(p[0], b) else IsContinuation(b)
    ensures DecodeOne(p + [b] + rest) == Good(Finished(p, b), |p| + 1)
  {
    var s, t := p + [b] + rest, p + [b];
    assert forall k :: 0 <= k <= |p| ==> s[k] == t[k];
  }

  lemma BrokenMeans(p: Pending, rest: seq<Byte>)
    requires p != []
    requires rest != [] ==> if |p| == 1 then !SecondOk(p[0], rest[0]) else !IsContinuation(rest[0])
    ensures DecodeOne(p + rest) == Bad(|p|)
  {
    var s := p + rest;
    assert forall k :: 0 <= k < |p| ==> s[k] == p[k];
    assert rest != [] ==> s[|p|] == rest[0];
  }

  lemma FinishingFeed(p: Pending, b: Byte, rest: seq<Byte>)
    requires p != [] && |p| == Continuations(p[0])
    requires if |p| == 1 then SecondOk(p[0], b) else IsContinuation(b)
    ensures DecodeLossy(p + [b] + rest) == Feed(p, b).text + DecodeLossy(Feed(p, b).pending + rest)
  {
    FinishedMeans(p, b, rest);
    hide DecodeOne, Continuations, SecondOk, IsContinuation;
    var s := p + [b] + rest;
    assert s[|p| + 1..] == rest && [] + rest == rest;
  }

  lemma BreakingFeed(p: Pending, b: Byte, rest: seq<Byte>)
    requires p != [] && if |p| == 1 then !SecondOk(p[0], b) else !IsContinuation(b)
    ensures DecodeLossy(p + [b] + rest) == Feed(p, b).text + DecodeLossy(Feed(p, b).pending + rest)
  {
    BrokenMeans(p, [b] + rest);
    LeadMeans(b, rest);
    hide DecodeOne, FeedLead, SecondOk, IsContinuation;
    var s := p + [b] + rest;
    assert s == p + ([b] + rest) && s[|p|..] == [b] + rest;
    Regroup([REPLACEMENT], FeedLead(b).text, DecodeLossy(FeedLead(b).pending + rest));
  }

  lemma Regroup(a: string, b: string, c: string)
    ensures a + (b + c) == (a + b) + c
  {
  }

  lemma FeedMeans(p: Pending, b: Byte, rest: seq<Byte>)
    ensures DecodeLossy(p + [b] + rest) == Feed(p, b).text + DecodeLossy(Feed(p, b).pending + rest)
  {
    hide DecodeLossy, Continuations, SecondOk, IsContinuation, FeedLead;
    if p == [] {
      LeadMeans(b, rest);
      assert p + [b] + rest == [b] + rest;
    } else if if |p| == 1 then SecondOk(p[0], b) else IsContinuation(b) {
      if |p| == Continuations(p[0]) {
        FinishingFeed(p, b, rest);
      }
    } else {
      BreakingFeed(p, b, rest);
    }
  }

  lemma {:induction false} FeedAllMeans(p: Pending, bytes: seq<Byte>, rest: seq<Byte>)
    ensures var fed := FeedAll(p, bytes);
      DecodeLossy(p + bytes + rest) == fed.text + DecodeLossy(fed.pending + rest)
  {
    hide DecodeLossy, Feed;
    if bytes == [] {
      assert p + bytes + rest == p + rest;
    } else {
      var n := |bytes| - 1;
      var past := FeedAll(p, bytes[..n]);
      FeedAllMeans(p, bytes[..n], [bytes[n]] + rest);
      assert p + bytes[..n] + ([bytes[n]] + rest) == p + bytes + rest;
      FeedMeans(past.pending, bytes[n], rest);
      assert past.pending + ([bytes[n]] + rest) == past.pending + [bytes[n]] + rest;
    }
  }

  // ----- the decoder object -----

  /** started: some text came out, so that a byte order mark would not be the first character any more. */
  datatype Decoder = Decoder(pending: Pending, started: bool)

  const NEW_DECODER := Decoder([], false)

  function DropMark(started: bool, text: string): string {
    if !started && text != "" && text[0] == BOM then text[1..] else text
  }

  /** `decode(bytes, { stream: true })`. */
  function DecodeSome(d: Decoder, bytes: seq<Byte>): (Decoder, string) {
    var fed := FeedAll(d.pending, bytes);
    (Decoder(fed.pending, d.started || fed.text != ""), DropMark(d.started, fed.text))
  }

  /** `decode()`: an unfinished character is replaced. */
  function DecodeEnd(d: Decoder): string {
    if d.pending == [] then "" else [REPLACEMENT]
  }

  lemma EndMeans(d: Decoder)
    ensures DecodeLossy(d.pending) == DecodeEnd(d)
  {
    if d.pending != [] {
      BrokenMeans(d.pending, []);
      assert d.pending + [] == d.pending;
    }
  }

  /** Where the decoder stands after these bytes, and what it has put out. */
  ghost predicate Decoded(d: Decoder, bytes: seq<Byte>, text: string) {
    exists all: string :: Equivalent(d, bytes, all) && text == DropMark(false, all) && (d.started <==> all != "")
  }

  /** The decoder has put out all, mark included, and keeps the pending bytes. */
  ghost predicate Equivalent(d: Decoder, bytes: seq<Byte>, all: string) {
    forall rest :: DecodeLossy(bytes + rest) == all + DecodeLossy(d.pending + rest)
  }

  lemma NothingDecoded()
    ensures Decoded(NEW_DECODER, [], "")
  {
    hide DecodeLossy;
    var all := "";
    forall rest: seq<Byte> ensures DecodeLossy([] + rest) == all + DecodeLossy(NEW_DECODER.pending + rest) {
      assert [] + rest == rest && all + DecodeLossy(rest) == DecodeLossy(rest);
    }
    assert Equivalent(NEW_DECODER, [], all);
  }

  /** Dropping the mark from the first text is dropping it from the whole. */
  lemma DropMarkOnce(all: string, more: string)
    ensures DropMark(false, all) + DropMark(all != "", more) == DropMark(false, all + more)
  {
    if all == "" {
      assert all + more == more;
    } else {
      assert (all + more)[0] == all[0] && (all + more)[1..] == all[1..] + more;
    }
  }

  lemma EquivalentMore(d: Decoder, bytes: seq<Byte>, all: string, more: seq<Byte>)
    requires Equivalent(d, bytes, all)
    ensures Equivalent(DecodeSome(d, more).0, bytes + more, all + FeedAll(d.pending, more).text)
  {
    hide DecodeLossy, FeedAll;
    var fed := FeedAll(d.pending, more);
    forall rest ensures DecodeLossy(bytes + more + rest) == all + fed.text + DecodeLossy(fed.pending + rest) {
      assert bytes + more + rest == bytes + (more + rest);
      FeedAllMeans(d.pending, more, rest);
      assert d.pending + more + rest == d.pending + (more + rest);
      Regroup(all, fed.text, DecodeLossy(fed.pending + rest));
    }
  }

  lemma SomeDecoded(d: Decoder, bytes: seq<Byte>, text: string, more: seq<Byte>)
    requires Decoded(d, bytes, text)
    ensures Decoded(DecodeSome(d, more).0, bytes + more, text + DecodeSome(d, more).1)
  {
    hide Equivalent, FeedAll, DropMark;
    var all :| Equivalent(d, bytes, all) && text == DropMark(false, all) && (d.started <==> all != "");
    EquivalentMore(d, bytes, all, more);
    DropMarkOnce(all, FeedAll(d.pending, more).text);
  }

  lemma MarkBytes(b: seq<Byte>)
    requires b != [] && DecodeOne(b) == Good(BOM, DecodeOne(b).length)
    ensures [0xEF, 0xBB, 0xBF] <= b
  {
  }

  lemma TextDecodeIs(bytes: seq<Byte>)
    ensures TextDecode(bytes) == DropMark(false, DecodeLossy(bytes))
  {
    if [0xEF, 0xBB, 0xBF] <= bytes {
      assert DecodeOne(bytes) == Good(BOM, 3);
    } else if bytes != [] && DecodeOne(bytes).Good? && DecodeOne(bytes).c == BOM {
      MarkBytes(bytes);
    }
  }

  /** However the bytes were cut, the pieces and the end add up to the decoding of the whole. */
  lemma WholeDecoded(d: Decoder, bytes: seq<Byte>, text: string)
    requires Decoded(d, bytes, text)
    ensures text + DropMark(d.started, DecodeEnd(d)) == TextDecode(bytes)
  {
    hide DecodeLossy, TextDecode;
    var all :| Equivalent(d, bytes, all) && text == DropMark(false, all) && (d.started <==> all != "");
    assert bytes + [] == bytes && d.pending + [] == d.pending;
    assert DecodeLossy(bytes + []) == all + DecodeLossy(d.pending + []);
    EndMeans(d);
    TextDecodeIs(bytes);
  }
}
