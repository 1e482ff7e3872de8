/** Which inputs make the parser of answers look at a byte behind them: those that end just after the tag of an
    array or a table, where the parser expects a tag. */
module BinOverread {
  import opened Bytes
  import opened BinFormat

  /** The beginning of an answer that ends in the tag of an array or a table: the tag alone, or complete
      elements and then such a beginning.  In a table `done` are keys and values in turn. */
  datatype Open = Bare(table: bool) | Inside(table: bool, done: Trees, last: Open)

  predicate OpenFits(o: Open) { o.Inside? ==> AllFit(o.done) && OpenFits(o.last) }

  predicate OpenScoped(o: Open, k: nat) { o.Inside? ==> AllScoped(o.done, k) && OpenScoped(o.last, k + AllStrings(o.done)) }

  function OpenTag(o: Open): nat { if o.table then 16 else 17 }

  /** Complete elements without an end mark. */
  function Joined(ts: Trees): bytes
    requires AllFit(ts)
  {
    match ts
    case Nil => []
    case Cons(h, t) => Encoded(h) + Joined(t)
  }

  function OpenBytes(o: Open): bytes
    requires OpenFits(o)
  {
    [OfNat(OpenTag(o))] + if o.Inside? then Joined(o.done) + OpenBytes(o.last) else []
  }

  ghost predicate EndsInTag(d: bytes, k: nat) {
    exists o :: OpenFits(o) && OpenScoped(o, k) && d == OpenBytes(o)
  }

  lemma OpenHead(o: Open)
    requires OpenFits(o)
    ensures var d := OpenBytes(o);
            && d != [] && ToNat(d[0]) == OpenTag(o) != END
            && d[1..] == if o.Inside? then Joined(o.done) + OpenBytes(o.last) else []
  {
    hide OfNat, ToNat, Joined;
    NatRoundTrip(OpenTag(o));
    var body := if o.Inside? then Joined(o.done) + OpenBytes(o.last) else [];
    HeadOf(OfNat(OpenTag(o)), body, []);
    assert OpenBytes(o) == ([OfNat(OpenTag(o))] + body) + [] && body + [] == body;
  }

  lemma {:induction false} OpenEnd(o: Open)
    requires OpenFits(o)
    ensures var d := OpenBytes(o); d != [] && ToNat(d[|d| - 1]) in {16, 17}
  {
    OpenHead(o);
    hide OfNat, ToNat;
    if o.Inside? {
      OpenEnd(o.last);
      var d, e := OpenBytes(o), OpenBytes(o.last);
      assert d[1..][|d| - 2] == e[|e| - 1];
    }
  }

  // ---------- they are overread ----------

  lemma {:induction false} OpenParsed(o: Open, k: nat)
    requires OpenFits(o) && OpenScoped(o, k)
    ensures Parse(OpenBytes(o), k) == Overread
    decreases o, 1
  {
    hide Parse, ParseItems, ParsePairs, ToNat, OpenBytes, Joined;
    OpenHead(o);
    if o.Inside? {
      if o.table { PairsOpen(o.done, o.last, k, true); } else { ItemsOpen(o.done, o.last, k, true); }
    } else {
      NothingThere(k);
    }
    var d := OpenBytes(o);
    TaggedOpen(o.table, d[1..], k);
    ParseIs(d, k);
  }

  lemma NothingThere(k: nat)
    ensures ParseItems([], k, true) == AllOverread && ParsePairs([], k, true) == AllOverread
  {
  }

  lemma ParseIs(d: bytes, k: nat)
    requires d != []
    ensures Parse(d, k) == ParseTagged(ToNat(d[0]), d[1..], k)
  {
    hide ToNat, ParseTagged;
  }

  lemma TaggedOpen(table: bool, r: bytes, k: nat)
    requires if table then ParsePairs(r, k, true) == AllOverread else ParseItems(r, k, true) == AllOverread
    ensures ParseTagged(if table then 16 else 17, r, k) == Overread
  {
    hide ParseItems, ParsePairs, FromLE;
  }

  lemma JoinedStep(h: Tree, t: Trees, end: bytes)
    requires Fits(h) && AllFit(t)
    ensures Joined(Cons(h, t)) + end == Encoded(h) + (Joined(t) + end)
  {
    hide Encoded;
  }

  lemma {:induction false} ItemsOpen(done: Trees, last: Open, k: nat, first: bool)
    requires AllFit(done) && AllScoped(done, k) && OpenFits(last) && OpenScoped(last, k + AllStrings(done))
    ensures ParseItems(Joined(done) + OpenBytes(last), k, first) == AllOverread
    decreases last, 2, done
  {
    hide Encoded, Parse, ToNat, OfNat, OpenBytes;
    match done
    case Nil =>
      OpenHead(last);
      OpenParsed(last, k);
      assert Joined(done) + OpenBytes(last) == OpenBytes(last);
    case Cons(h, t) =>
      var more := Joined(t) + OpenBytes(last);
      JoinedStep(h, t, OpenBytes(last));
      ParseEncoded(h, more, k);
      NotEnd(h, more);
      ItemsOpen(t, last, k + Strings(h), false);
  }

  lemma {:induction false} PairsOpen(done: Trees, last: Open, k: nat, first: bool)
    requires AllFit(done) && AllScoped(done, k) && OpenFits(last) && OpenScoped(last, k + AllStrings(done))
    ensures ParsePairs(Joined(done) + OpenBytes(last), k, first) == AllOverread
    decreases last, 2, done
  {
    hide Encoded, Parse, ToNat, OfNat, OpenBytes;
    var end := OpenBytes(last);
    OpenHead(last);
    match done
    case Nil =>
      OpenParsed(last, k);
      assert Joined(done) + end == end;
    case Cons(key, t) =>
      var more := Joined(t) + end;
      JoinedStep(key, t, end);
      ParseEncoded(key, more, k);
      NotEnd(key, more);
      if t.Nil? {
        OpenParsed(last, k + Strings(key));
        assert more == end;
      } else {
        var more2 := Joined(t.tail) + end;
        JoinedStep(t.head, t.tail, end);
        ParseEncoded(t.head, more2, k + Strings(key));
        NotEnd(t.head, more2);
        PairsOpen(t.tail, last, k + Strings(key) + Strings(t.head), false);
      }
  }

  // ---------- and no others are ----------

  /** The input of a list that is overread: nothing, or elements and then a beginning that ends in a tag. */
  ghost predicate OpenRest(d: bytes, k: nat, first: bool, done: Trees, o: Open) {
    || (d == [] && first)
    || (&& AllFit(done) && AllScoped(done, k) && OpenFits(o) && OpenScoped(o, k + AllStrings(done))
        && d == Joined(done) + OpenBytes(o))
  }

  lemma OpenJoined(d: bytes, o: Open)
    requires OpenFits(o) && d != [] && ToNat(d[0]) == OpenTag(o)
    requires d[1..] == if o.Inside? then Joined(o.done) + OpenBytes(o.last) else []
    ensures d == OpenBytes(o)
  {
    hide OfNat, ToNat, Joined;
    ByteRoundTrip(d[0]);
    Headed(d, d[1..], []);
    assert d[1..] + [] == d[1..];
  }

  /** A list that is overread. */
  lemma ListOpen(d: bytes, k: nat)
    requires Parse(d, k) == Overread
    ensures d != [] && ToNat(d[0]) in {16, 17}
    ensures if ToNat(d[0]) == 16 then ParsePairs(d[1..], k, true).AllOverread? else ParseItems(d[1..], k, true).AllOverread?
  {
    hide Parse, ParseTagged, ToNat;
    if d != [] {
      ParseIs(d, k);
      TaggedOverread(ToNat(d[0]), d[1..], k);
    } else {
      EmptyFails(k);
    }
  }

  lemma EmptyFails(k: nat)
    ensures Parse([], k) == Fail
  {
  }

  lemma TaggedOverread(tag: nat, r: bytes, k: nat)
    requires ParseTagged(tag, r, k) == Overread
    ensures tag in {16, 17} && if tag == 16 then ParsePairs(r, k, true).AllOverread? else ParseItems(r, k, true).AllOverread?
  {
    hide ParsePairs, ParseItems, FromLE;
  }

  lemma {:induction false} OverreadIsOpen(d: bytes, k: nat) returns (o: Open)
    requires Parse(d, k) == Overread
    ensures OpenFits(o) && OpenScoped(o, k) && d == OpenBytes(o)
    decreases |d|, 1
  {
    hide ToNat, Parse, ParseItems, ParsePairs, Joined, OpenBytes;
    ListOpen(d, k);
    var table := ToNat(d[0]) == 16;
    var done, last;
    if table { done, last := PairsOverread(d[1..], k, true); } else { done, last := ItemsOverread(d[1..], k, true); }
    o := if d[1..] == [] then Bare(table) else Inside(table, done, last);
    OpenJoined(d, o);
  }

  lemma OpenCons(h: Tree, rest: bytes, d: bytes, k: nat, done: Trees, o: Open)
    requires Fits(h) && Scoped(h, k) && d == Encoded(h) + rest && OpenRest(rest, k + Strings(h), false, done, o)
    ensures OpenRest(d, k, false, Cons(h, done), o)
  {
    hide Encoded, OpenBytes;
    JoinedStep(h, done, OpenBytes(o));
  }

  lemma {:induction false} ItemsOverread(d: bytes, k: nat, first: bool) returns (done: Trees, o: Open)
    requires ParseItems(d, k, first) == AllOverread
    ensures OpenRest(d, k, first, done, o)
    decreases |d|, 2
  {
    hide Parse, ToNat, Encoded, OpenBytes;
    done, o := Nil, Bare(true);
    if d != [] {
      var p := Parse(d, k);
      if p.Overread? {
        o := OverreadIsOpen(d, k);
        assert Joined(done) + OpenBytes(o) == OpenBytes(o);
      } else {
        ParseSound(d, k);
        done, o := ItemsOverread(p.rest, p.k, false);
        OpenCons(p.t, p.rest, d, k, done, o);
        done := Cons(p.t, done);
      }
    }
  }

  lemma {:induction false} PairsOverread(d: bytes, k: nat, first: bool) returns (done: Trees, o: Open)
    requires ParsePairs(d, k, first) == AllOverread
    ensures OpenRest(d, k, first, done, o)
    decreases |d|, 2
  {
    hide Parse, ToNat, Encoded, OpenBytes;
    done, o := Nil, Bare(true);
    if d != [] {
      var p := Parse(d, k);
      if p.Overread? {
        o := OverreadIsOpen(d, k);
        assert Joined(done) + OpenBytes(o) == OpenBytes(o);
      } else {
        ParseSound(d, k);
        var q := Parse(p.rest, p.k);
        if q.Overread? {
          o := OverreadIsOpen(p.rest, p.k);
          assert Joined(done) + OpenBytes(o) == OpenBytes(o);
        } else {
          ParseSound(p.rest, p.k);
          done, o := PairsOverread(q.rest, q.k, false);
          OpenCons(q.t, q.rest, p.rest, p.k, done, o);
          done := Cons(q.t, done);
        }
        OpenCons(p.t, p.rest, d, k, done, o);
        done := Cons(p.t, done);
      }
    }
  }

  /** The parser looks behind exactly these inputs; all of them end in the byte of such a tag. */
  lemma {:induction false} OverreadExactly(d: bytes, k: nat)
    ensures Parse(d, k).Overread? <==> EndsInTag(d, k)
    ensures Parse(d, k).Overread? ==> d != [] && ToNat(d[|d| - 1]) in {16, 17}
  {
    hide Parse, OpenBytes, ToNat;
    if Parse(d, k).Overread? {
      var o := OverreadIsOpen(d, k);
      OpenEnd(o);
    }
    if EndsInTag(d, k) {
      var o :| OpenFits(o) && OpenScoped(o, k) && d == OpenBytes(o);
      OpenParsed(o, k);
    }
  }

  /** The shortest of them: a single byte. */
  lemma OneByte(table: bool)
    ensures Parse([OfNat(OpenTag(Bare(table)))], 0).Overread?
  {
    OpenParsed(Bare(table), 0);
    assert OpenBytes(Bare(table)) == [OfNat(OpenTag(Bare(table)))] by { hide OfNat; }
    hide OfNat, Parse;
  }

  // ---------- they are beginnings of answers ----------

  /** The answer that such a beginning becomes when its lists are closed. */
  function Closed(o: Open): Tree {
    match o
    case Bare(table) => if table then Table(Nil) else List(Nil)
    case Inside(table, done, last) => if table then Table(Paired(done, Closed(last))) else List(Append(done, Closed(last)))
  }

  function Append(ts: Trees, t: Tree): Trees { if ts.Nil? then Cons(t, Nil) else Cons(ts.head, Append(ts.tail, t)) }

  /** An open key needs a value. */
  function Paired(ts: Trees, t: Tree): Trees {
    match ts
    case Nil => Cons(t, Cons(Truth(false), Nil))
    case Cons(k, Nil) => Cons(k, Cons(t, Nil))
    case Cons(k, Cons(v, rest)) => Cons(k, Cons(v, Paired(rest, t)))
  }

  predicate Begins(a: bytes, b: bytes) { |a| < |b| && a == b[..|a|] }

  lemma BeginsAfter(x: bytes, a: bytes, b: bytes)
    requires Begins(a, b)
    ensures Begins(x + a, x + b)
  {
  }

  lemma BeginsMore(a: bytes, b: bytes, y: bytes)
    requires Begins(a, b)
    ensures Begins(a, b + y)
  {
  }

  lemma {:induction false} Beginning(o: Open, k: nat)
    requires OpenFits(o) && OpenScoped(o, k)
    ensures Fits(Closed(o)) && Scoped(Closed(o), k) && Begins(OpenBytes(o), Encoded(Closed(o)))
  {
    hide OfNat, Begins;
    match o
    case Bare(table) =>
      assert Encoded(Closed(o)) == OpenBytes(o) + [OfNat(END)];
      assert Begins(OpenBytes(o), Encoded(Closed(o))) by { OneMore(OpenBytes(o), OfNat(END)); }
    case Inside(table, done, last) =>
      Beginning(last, k + AllStrings(done));
      var c := Closed(last);
      if table { PairedBegins(done, c, OpenBytes(last), k); } else { AppendBegins(done, c, OpenBytes(last), k); }
      var ts := if table then Paired(done, c) else Append(done, c);
      hide Encoded, AllEncoded, Joined;
      ClosedBytes(o, ts);
      BeginsAfter([OfNat(OpenTag(o))], Joined(done) + OpenBytes(last), AllEncoded(ts));
  }

  lemma OneMore(a: bytes, b: byte)
    ensures Begins(a, a + [b])
  {
  }

  lemma ClosedBytes(o: Open, ts: Trees)
    requires OpenFits(o) && o.Inside? && AllFit(ts) && (o.table ==> Even(ts)) && Closed(o) == if o.table then Table(ts) else List(ts)
    ensures Fits(Closed(o)) && Encoded(Closed(o)) == [OfNat(OpenTag(o))] + AllEncoded(ts)
    ensures OpenBytes(o) == [OfNat(OpenTag(o))] + (Joined(o.done) + OpenBytes(o.last))
  {
    hide OfNat, AllEncoded, Joined;
  }

  lemma {:induction false} AppendBegins(ts: Trees, t: Tree, a: bytes, k: nat)
    requires AllFit(ts) && AllScoped(ts, k) && Fits(t) && Scoped(t, k + AllStrings(ts)) && Begins(a, Encoded(t))
    ensures AllFit(Append(ts, t)) && AllScoped(Append(ts, t), k) && Begins(Joined(ts) + a, AllEncoded(Append(ts, t)))
    decreases ts
  {
    hide Encoded, Begins, OfNat;
    match ts
    case Nil =>
      BeginsMore(a, Encoded(t), AllEncoded(Nil));
      assert Joined(ts) + a == a;
    case Cons(h, rest) =>
      AppendBegins(rest, t, a, k + Strings(h));
      BeginsAfter(Encoded(h), Joined(rest) + a, AllEncoded(Append(rest, t)));
      JoinedStep(h, rest, a);
  }

  lemma PairedNone(t: Tree, a: bytes, k: nat)
    requires Fits(t) && Scoped(t, k) && Begins(a, Encoded(t))
    ensures var ts := Cons(t, Cons(Truth(false), Nil)); AllFit(ts) && Even(ts) && AllScoped(ts, k) && Begins(a, AllEncoded(ts))
  {
    hide Encoded, Begins, OfNat;
    var end := Cons(Truth(false), Nil);
    assert AllFit(end) && AllScoped(end, k + Strings(t));
    BeginsMore(a, Encoded(t), AllEncoded(end));
  }

  lemma PairedKey(h: Tree, t: Tree, a: bytes, k: nat)
    requires Fits(h) && Scoped(h, k) && Fits(t) && Scoped(t, k + Strings(h)) && Begins(a, Encoded(t))
    ensures var ts := Cons(h, Cons(t, Nil));
            AllFit(ts) && Even(ts) && AllScoped(ts, k) && Begins(Joined(Cons(h, Nil)) + a, AllEncoded(ts))
  {
    hide Encoded, Begins, OfNat;
    assert AllFit(Cons(t, Nil)) && AllScoped(Cons(t, Nil), k + Strings(h));
    BeginsMore(a, Encoded(t), AllEncoded(Nil));
    BeginsAfter(Encoded(h), a, AllEncoded(Cons(t, Nil)));
    JoinedStep(h, Nil, a);
    assert Joined(Nil) + a == a;
  }

  lemma PairedMore(h: Tree, v: Tree, rest: Trees, more: Trees, a: bytes, k: nat)
    requires Fits(h) && Scoped(h, k) && Fits(v) && Scoped(v, k + Strings(h)) && AllFit(rest)
    requires AllFit(more) && Even(more) && AllScoped(more, k + Strings(h) + Strings(v)) && Begins(Joined(rest) + a, AllEncoded(more))
    ensures var ts := Cons(h, Cons(v, more));
            AllFit(ts) && Even(ts) && AllScoped(ts, k) && Begins(Joined(Cons(h, Cons(v, rest))) + a, AllEncoded(ts))
  {
    hide Encoded, Begins, OfNat;
    BeginsAfter(Encoded(v), Joined(rest) + a, AllEncoded(more));
    BeginsAfter(Encoded(h), Encoded(v) + (Joined(rest) + a), AllEncoded(Cons(v, more)));
    JoinedStep(v, rest, a);
    JoinedStep(h, Cons(v, rest), a);
  }

  lemma {:induction false} PairedBegins(ts: Trees, t: Tree, a: bytes, k: nat)
    requires AllFit(ts) && AllScoped(ts, k) && Fits(t) && Scoped(t, k + AllStrings(ts)) && Begins(a, Encoded(t))
    ensures AllFit(Paired(ts, t)) && Even(Paired(ts, t)) && AllScoped(Paired(ts, t), k)
    ensures Begins(Joined(ts) + a, AllEncoded(Paired(ts, t)))
    decreases ts
  {
    hide Encoded, Begins, AllEncoded;
    match ts
    case Nil =>
      PairedNone(t, a, k);
      assert Joined(ts) + a == a;
    case Cons(h, Nil) =>
      assert AllStrings(ts) == Strings(h) + AllStrings(Nil);
      PairedKey(h, t, a, k);
    case Cons(h, Cons(v, rest)) =>
      PairedBegins(rest, t, a, k + Strings(h) + Strings(v));
      PairedMore(h, v, rest, Paired(rest, t), a, k);
  }
}
