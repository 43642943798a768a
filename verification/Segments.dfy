/**
 What an acquisition has learned, in the order it learned it: stretches of bytes that were
 obtained and stretches that were not.  The image, the byte totals and the list of unreadable
 spans are all functions of that history.
 */
module Segments {
  import opened Words
  import opened Runs

  datatype Segment =
    | Got(start: nat, data: seq<byte>)
    | Lost(start: nat, length: nat, status: i32)
  {
    function Length(): nat {
      if Got? then |data| else length
    }

    function End(): nat {
      start + Length()
    }

    predicate Covers(a: int) {
      start <= a < start + Length()
    }
  }

  /** An unreadable interval as the provenance map records it. */
  datatype Span = Span(start: nat, length: nat, status: i32) {
    function End(): nat {
      start + length
    }

    predicate Covers(a: int) {
      start <= a < start + length
    }
  }

  /** Non-empty segments at rising addresses, no byte in two of them. */
  ghost predicate Ascending(segs: seq<Segment>) {
    && (forall i :: 0 <= i < |segs| ==> segs[i].Length() > 0)
    && (forall i, j :: 0 <= i < j < |segs| ==> segs[i].End() <= segs[j].start)
  }

  ghost predicate Covered(segs: seq<Segment>, a: int) {
    exists i :: 0 <= i < |segs| && segs[i].Covers(a)
  }

  ghost predicate LostAt(segs: seq<Segment>, a: int, status: i32) {
    exists i :: 0 <= i < |segs| && segs[i].Lost? && segs[i].Covers(a) && segs[i].status == status
  }

  ghost predicate GotAt(segs: seq<Segment>, a: int, b: byte) {
    exists i :: 0 <= i < |segs| && segs[i].Got? && segs[i].Covers(a) && segs[i].data[a - segs[i].start] == b
  }

  function GotBytes(segs: seq<Segment>): nat {
    if |segs| == 0 then 0
    else GotBytes(segs[..|segs| - 1]) + (if segs[|segs| - 1].Got? then segs[|segs| - 1].Length() else 0)
  }

  function LostBytes(segs: seq<Segment>): nat {
    if |segs| == 0 then 0
    else LostBytes(segs[..|segs| - 1]) + (if segs[|segs| - 1].Lost? then segs[|segs| - 1].Length() else 0)
  }

  // ---- the flat image ----

  /** The byte at address `a`: the latest one obtained there, zero where none was. */
  function ByteAt(segs: seq<Segment>, a: int): byte {
    if |segs| == 0 then 0
    else
      var last := segs[|segs| - 1];
      if last.Got? && last.Covers(a) then last.data[a - last.start] else ByteAt(segs[..|segs| - 1], a)
  }

  function ImageOf(segs: seq<Segment>, size: nat): seq<byte> {
    seq(size, a => ByteAt(segs, a))
  }

  /** In an ascending history each obtained byte reaches the image. */
  lemma {:induction false} GotReachesImage(segs: seq<Segment>, a: int, b: byte)
    requires Ascending(segs) && GotAt(segs, a, b)
    ensures ByteAt(segs, a) == b
  {
    var n := |segs| - 1;
    var i :| 0 <= i < |segs| && segs[i].Got? && segs[i].Covers(a) && segs[i].data[a - segs[i].start] == b;
    if i < n {
      var init := segs[..n];
      assert init[i] == segs[i];
      GotReachesImage(init, a, b);
    }
  }

  /** A non-zero byte of the image was obtained at its own address. */
  lemma {:induction false} NonZeroWasGot(segs: seq<Segment>, a: int)
    requires ByteAt(segs, a) != 0
    ensures GotAt(segs, a, ByteAt(segs, a))
  {
    var n := |segs| - 1;
    if !(segs[n].Got? && segs[n].Covers(a)) {
      var init := segs[..n];
      NonZeroWasGot(init, a);
      var i :| 0 <= i < n && init[i].Got? && init[i].Covers(a) && init[i].data[a - init[i].start] == ByteAt(init, a);
      assert segs[i] == init[i];
    }
  }

  // ---- coalescing ----

  /** One more unreadable stretch: grows the last span when it continues it with the same status. */
  function AddSpan(spans: seq<Span>, start: nat, length: nat, status: i32): seq<Span> {
    if |spans| > 0 && spans[|spans| - 1].End() == start && spans[|spans| - 1].status == status
    then spans[..|spans| - 1] + [spans[|spans| - 1].(length := spans[|spans| - 1].length + length)]
    else spans + [Span(start, length, status)]
  }

  function Coalesce(segs: seq<Segment>): seq<Span> {
    if |segs| == 0 then []
    else
      var last := segs[|segs| - 1];
      var spans := Coalesce(segs[..|segs| - 1]);
      if last.Lost? then AddSpan(spans, last.start, last.length, last.status) else spans
  }

  /** Two neighbours either leave a gap or differ in status. */
  ghost predicate Apart(p: Span, q: Span) {
    p.End() < q.start || (p.End() == q.start && p.status != q.status)
  }

  /** Ascending, disjoint and maximal. */
  ghost predicate Canonical(spans: seq<Span>) {
    && (forall i :: 0 <= i < |spans| ==> spans[i].length > 0)
    && (forall i :: 0 < i < |spans| ==> Apart(spans[i - 1], spans[i]))
  }

  ghost predicate SpanAt(spans: seq<Span>, a: int, status: i32) {
    exists i :: 0 <= i < |spans| && spans[i].Covers(a) && spans[i].status == status
  }

  function SpanBytes(spans: seq<Span>): nat {
    if |spans| == 0 then 0 else SpanBytes(spans[..|spans| - 1]) + spans[|spans| - 1].length
  }

  lemma {:induction false} CanonicalAscends(spans: seq<Span>, i: nat, j: nat)
    requires Canonical(spans) && i < j < |spans|
    ensures spans[i].End() <= spans[j].start
    decreases j
  {
    assert Apart(spans[j - 1], spans[j]);
    if i < j - 1 {
      CanonicalAscends(spans, i, j - 1);
    }
  }

  lemma {:induction false} AddSpanCanonical(spans: seq<Span>, start: nat, length: nat, status: i32)
    requires Canonical(spans) && length > 0
    requires |spans| > 0 ==> spans[|spans| - 1].End() <= start
    ensures Canonical(AddSpan(spans, start, length, status))
  {
    var added := AddSpan(spans, start, length, status);
    forall i | 0 < i < |added|
      ensures Apart(added[i - 1], added[i])
    {
      if i < |spans| {
        assert Apart(spans[i - 1], spans[i]);
      }
    }
  }

  lemma {:induction false} AddSpanCovers(spans: seq<Span>, start: nat, length: nat, status: i32, a: int, st: i32)
    ensures SpanAt(AddSpan(spans, start, length, status), a, st)
       <==> SpanAt(spans, a, st) || (start <= a < start + length && st == status)
  {
    var added := AddSpan(spans, start, length, status);
    var n := |spans|;
    if SpanAt(spans, a, st) {
      var i :| 0 <= i < n && spans[i].Covers(a) && spans[i].status == st;
      assert added[i].Covers(a) && added[i].status == st;
    }
    if start <= a < start + length && st == status {
      assert added[|added| - 1].Covers(a) && added[|added| - 1].status == st;
    }
    if SpanAt(added, a, st) {
      var i :| 0 <= i < |added| && added[i].Covers(a) && added[i].status == st;
      if i < n && !(start <= a < start + length && st == status) {
        assert spans[i].Covers(a) && spans[i].status == st;
      }
    }
  }

  lemma {:induction false} SpanBytesSnoc(spans: seq<Span>, last: Span)
    ensures SpanBytes(spans + [last]) == SpanBytes(spans) + last.length
  {
    assert (spans + [last])[..|spans|] == spans;
  }

  lemma {:induction false} AddSpanBytes(spans: seq<Span>, start: nat, length: nat, status: i32)
    ensures SpanBytes(AddSpan(spans, start, length, status)) == SpanBytes(spans) + length
  {
    var n := |spans|;
    if n > 0 && spans[n - 1].End() == start && spans[n - 1].status == status {
      var joined := spans[n - 1].(length := spans[n - 1].length + length);
      SpanBytesSnoc(spans[..n - 1], joined);
    } else {
      SpanBytesSnoc(spans, Span(start, length, status));
    }
  }

  /** The last span ends no later than the last segment does. */
  lemma {:induction false} CoalesceCanonical(segs: seq<Segment>)
    requires Ascending(segs)
    ensures Canonical(Coalesce(segs))
    ensures |Coalesce(segs)| > 0 ==> |segs| > 0 && Coalesce(segs)[|Coalesce(segs)| - 1].End() <= segs[|segs| - 1].End()
  {
    if |segs| > 0 {
      var init := segs[..|segs| - 1];
      var last := segs[|segs| - 1];
      CoalesceCanonical(init);
      if |init| > 0 {
        assert init[|init| - 1] == segs[|segs| - 2];
      }
      if last.Lost? {
        AddSpanCanonical(Coalesce(init), last.start, last.length, last.status);
      }
    }
  }

  /** The spans cover exactly the lost bytes, each with the status its read reported. */
  lemma {:induction false} CoalesceCovers(segs: seq<Segment>, a: int, status: i32)
    ensures SpanAt(Coalesce(segs), a, status) <==> LostAt(segs, a, status)
  {
    if |segs| > 0 {
      var n := |segs| - 1;
      var init := segs[..n];
      var last := segs[n];
      CoalesceCovers(init, a, status);
      if last.Lost? {
        AddSpanCovers(Coalesce(init), last.start, last.length, last.status, a, status);
      }
      if LostAt(init, a, status) {
        var i :| 0 <= i < n && init[i].Lost? && init[i].Covers(a) && init[i].status == status;
        assert segs[i] == init[i];
      }
      if LostAt(segs, a, status) && !(last.Lost? && last.Covers(a) && last.status == status) {
        var i :| 0 <= i < |segs| && segs[i].Lost? && segs[i].Covers(a) && segs[i].status == status;
        assert init[i] == segs[i];
      }
    }
  }

  lemma {:induction false} CoalesceBytes(segs: seq<Segment>)
    ensures SpanBytes(Coalesce(segs)) == LostBytes(segs)
  {
    if |segs| > 0 {
      var last := segs[|segs| - 1];
      CoalesceBytes(segs[..|segs| - 1]);
      if last.Lost? {
        AddSpanBytes(Coalesce(segs[..|segs| - 1]), last.start, last.length, last.status);
      }
    }
  }

  /** Spans end where segments end. */
  lemma {:induction false} CoalesceFits(segs: seq<Segment>, bound: nat)
    requires forall i :: 0 <= i < |segs| ==> segs[i].End() <= bound
    ensures forall i :: 0 <= i < |Coalesce(segs)| ==> Coalesce(segs)[i].End() <= bound
  {
    if |segs| > 0 {
      CoalesceFits(segs[..|segs| - 1], bound);
    }
  }

  // ---- a canonical list is determined by what it covers ----

  ghost predicate SameCover(p: seq<Span>, q: seq<Span>) {
    forall a: int, st: i32 :: SpanAt(p, a, st) <==> SpanAt(q, a, st)
  }

  /** In a canonical list only the first span can cover its own addresses. */
  lemma {:induction false} FirstSpanOwns(spans: seq<Span>, a: int, st: i32)
    requires Canonical(spans) && |spans| > 0 && a < spans[0].End()
    ensures SpanAt(spans, a, st) <==> spans[0].Covers(a) && spans[0].status == st
  {
    if SpanAt(spans, a, st) {
      var i :| 0 <= i < |spans| && spans[i].Covers(a) && spans[i].status == st;
      if i > 0 {
        CanonicalAscends(spans, 0, i);
      }
    }
  }

  /** A canonical list stops covering with that status where its first span ends. */
  lemma {:induction false} FirstSpanStops(spans: seq<Span>)
    requires Canonical(spans) && |spans| > 0
    ensures !SpanAt(spans, spans[0].End(), spans[0].status)
  {
    forall i | 0 <= i < |spans|
      ensures !(spans[i].Covers(spans[0].End()) && spans[i].status == spans[0].status)
    {
      if i > 0 {
        assert Apart(spans[0], spans[1]);
      }
      if i > 1 {
        CanonicalAscends(spans, 1, i);
      }
    }
  }

  lemma {:induction false} FirstSpanAgrees(p: seq<Span>, q: seq<Span>)
    requires Canonical(p) && Canonical(q) && SameCover(p, q) && |p| > 0
    ensures |q| > 0 && p[0].start >= q[0].start
  {
    var a := p[0].start;
    assert SpanAt(p, a, p[0].status) by {
      assert p[0].Covers(a);
    }
    assert SpanAt(q, a, p[0].status);
    var i :| 0 <= i < |q| && q[i].Covers(a);
    if i > 0 {
      CanonicalAscends(q, 0, i);
    }
  }

  lemma {:induction false} FirstSpanNotLonger(p: seq<Span>, q: seq<Span>)
    requires Canonical(p) && Canonical(q) && SameCover(p, q)
    requires |p| > 0 && |q| > 0 && p[0].start == q[0].start
    ensures p[0].status == q[0].status && p[0].length <= q[0].length
  {
    var a := p[0].start;
    FirstSpanOwns(q, a, p[0].status);
    assert p[0].Covers(a) && SpanAt(p, a, p[0].status);
    if p[0].length > q[0].length {
      assert SpanAt(p, q[0].End(), p[0].status) by {
        assert p[0].Covers(q[0].End());
      }
      FirstSpanStops(q);
    }
  }

  lemma {:induction false} TailCover(p: seq<Span>, q: seq<Span>)
    requires Canonical(p) && Canonical(q) && SameCover(p, q)
    requires |p| > 0 && |q| > 0 && p[0] == q[0]
    ensures Canonical(p[1..]) && Canonical(q[1..]) && SameCover(p[1..], q[1..])
  {
    TailCanonical(p);
    TailCanonical(q);
    forall a: int, st: i32
      ensures SpanAt(p[1..], a, st) <==> SpanAt(q[1..], a, st)
    {
      TailSpanAt(p, a, st);
      TailSpanAt(q, a, st);
    }
  }

  lemma {:induction false} TailCanonical(spans: seq<Span>)
    requires Canonical(spans) && |spans| > 0
    ensures Canonical(spans[1..])
  {
    var tail := spans[1..];
    forall i | 0 < i < |tail|
      ensures Apart(tail[i - 1], tail[i])
    {
      assert Apart(spans[i], spans[i + 1]);
    }
  }

  lemma {:induction false} TailSpanAt(spans: seq<Span>, a: int, st: i32)
    requires Canonical(spans) && |spans| > 0
    ensures SpanAt(spans[1..], a, st) <==> a >= spans[0].End() && SpanAt(spans, a, st)
  {
    var tail := spans[1..];
    if SpanAt(tail, a, st) {
      var i :| 0 <= i < |tail| && tail[i].Covers(a) && tail[i].status == st;
      assert spans[i + 1].Covers(a);
      CanonicalAscends(spans, 0, i + 1);
    }
    if a >= spans[0].End() && SpanAt(spans, a, st) {
      var i :| 0 <= i < |spans| && spans[i].Covers(a) && spans[i].status == st;
      assert tail[i - 1].Covers(a);
    }
  }

  /** Two canonical lists that cover the same bytes with the same statuses are the same list. */
  lemma {:induction false} CanonicalUnique(p: seq<Span>, q: seq<Span>)
    requires Canonical(p) && Canonical(q) && SameCover(p, q)
    ensures p == q
    decreases |p|
  {
    if |p| == 0 {
      if |q| > 0 {
        FirstSpanAgrees(q, p);
      }
    } else {
      FirstSpanAgrees(p, q);
      FirstSpanAgrees(q, p);
      FirstSpanNotLonger(p, q);
      FirstSpanNotLonger(q, p);
      TailCover(p, q);
      CanonicalUnique(p[1..], q[1..]);
      assert p == [p[0]] + p[1..] && q == [q[0]] + q[1..];
    }
  }
}
