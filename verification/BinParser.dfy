/** The two passes over an answer of the server: the first checks it and computes how much space the result
    takes, the second builds the result without looking for the end of the input. */
module BinParser {
  import opened Bytes
  import opened BinFormat
  import opened BinOverread
  import opened BinValues

  const BAD: int := -1
  /** The source looked at the byte after the input. */
  const OVERREAD: int := -2

  /** What the first pass says of the input from `pos` on. */
  ghost predicate Checked(p: Parsed, data: bytes, pos: nat, ret: int, pos': nat, strcnt': nat) {
    match p
    case Fail => ret == BAD
    case Overread => ret == OVERREAD
    case Done(t, rest, k) => ret == Size(t) && pos < pos' <= |data| && data[pos'..] == rest && strcnt' == k
  }

  /** The first pass. */
  method CalcRetLen(data: bytes, pos: nat, strcnt: nat) returns (ret: int, pos': nat, strcnt': nat)
    requires pos <= |data|
    ensures Checked(Parse(data[pos..], strcnt), data, pos, ret, pos', strcnt')
    decreases |data| - pos, 1
  {
    hide ToNat, FromLE, ParseTagged, ParseItems, ParsePairs;
    pos', strcnt' := pos, strcnt;
    if |data| - pos < 1 { return BAD, pos', strcnt'; }
    var tag := ToNat(data[pos]);
    assert data[pos..][0] == data[pos] && data[pos..][1..] == data[pos + 1..];
    pos' := pos + 1;
    if tag <= 3 || 100 <= tag < 150 {
      ret, pos', strcnt' := CalcText(data, pos', strcnt, tag);
    } else if 4 <= tag <= 7 || 150 <= tag < 200 {
      ret, pos' := CalcRef(data, pos', strcnt, tag);
    } else if 8 <= tag <= 15 || tag == 20 || 200 <= tag < 220 || tag == 18 || tag == 19 {
      ret, pos' := CalcNumber(data, pos', strcnt, tag);
    } else if tag == 17 {
      ret, pos', strcnt' := CalcArray(data, pos', strcnt);
    } else if tag == 16 {
      ret, pos', strcnt' := CalcHash(data, pos', strcnt);
    } else {
      Unknown(tag, data[pos + 1..], strcnt);
      ret := BAD;
    }
  }

  lemma Unknown(tag: nat, r: bytes, k: nat)
    requires 20 < tag < 100 || tag >= 220
    ensures ParseTagged(tag, r, k) == Fail
  {
  }

  /** There are no other tags. */
  lemma KnownTag(tag: nat, r: bytes, k: nat)
    ensures ParseTagged(tag, r, k).Done? ==> tag <= 20 || 100 <= tag < 220
  {
  }

  method CalcText(data: bytes, pos: nat, strcnt: nat, tag: nat) returns (ret: int, pos': nat, strcnt': nat)
    requires 0 < pos <= |data| && (tag <= 3 || 100 <= tag < 150)
    ensures Checked(ParseTagged(tag, data[pos..], strcnt), data, pos - 1, ret, pos', strcnt')
  {
    hide ToNat, FromLE, ParseItems, ParsePairs;
    pos', strcnt' := pos, strcnt;
    var len: nat;
    if tag >= 100 {
      len := tag - 100;
    } else {
      var l := tag + 1;
      if |data| - pos' < l { return BAD, pos', strcnt'; }
      len := FromLE(data[pos'..pos' + l]);
      SliceIs(data, pos', l);
      pos' := pos' + l;
    }
    if |data| - pos' < len { return BAD, pos', strcnt'; }
    SliceIs(data, pos', len);
    pos' := pos' + len;
    ret := 8 + (len + 8) / 8 * 8;
    strcnt' := strcnt' + 1;
  }

  lemma SliceIs(data: bytes, pos: nat, l: nat)
    requires pos + l <= |data|
    ensures data[pos..][..l] == data[pos..pos + l] && data[pos..][l..] == data[pos + l..]
  {
  }

  method CalcRef(data: bytes, pos: nat, strcnt: nat, tag: nat) returns (ret: int, pos': nat)
    requires 0 < pos <= |data| && (4 <= tag <= 7 || 150 <= tag < 200)
    ensures Checked(ParseTagged(tag, data[pos..], strcnt), data, pos - 1, ret, pos', strcnt)
  {
    hide ToNat, FromLE, ParseItems, ParsePairs;
    pos' := pos;
    var id: nat;
    if tag <= 7 {
      var l := tag - 3;
      if |data| - pos' < l { return BAD, pos'; }
      id := FromLE(data[pos'..pos' + l]);
      SliceIs(data, pos', l);
      pos' := pos' + l;
    } else {
      id := tag - 150;
    }
    if id < strcnt { ret := 0; } else { ret := BAD; }
  }

  method CalcNumber(data: bytes, pos: nat, strcnt: nat, tag: nat) returns (ret: int, pos': nat)
    requires 0 < pos <= |data| && (8 <= tag <= 15 || tag == 20 || 200 <= tag < 220 || tag == 18 || tag == 19)
    ensures Checked(ParseTagged(tag, data[pos..], strcnt), data, pos - 1, ret, pos', strcnt)
  {
    hide ToNat, FromLE, ParseItems, ParsePairs;
    pos' := pos;
    if tag <= 15 || tag == 20 {
      var len := if tag <= 15 then tag - 7 else 8;
      if |data| - pos' < len { return BAD, pos'; }
      SliceIs(data, pos', len);
      pos' := pos' + len;
      ret := 16;
    } else {
      ret := 0;
    }
  }

  /** While the items of a list are checked: `ret` is what those before take. */
  ghost predicate ListSoFar(whole: AllParsed, left: AllParsed, ret: int, entry: nat) {
    match left
    case AllFail => whole == AllFail
    case AllOverread => whole == AllOverread
    case AllDone(ts, rest, k) =>
      whole.AllDone? && whole.rest == rest && whole.k == k
      && 16 + AllSizes(whole.ts) + entry * Length(whole.ts) == ret + AllSizes(ts) + entry * Length(ts)
  }

  method CalcArray(data: bytes, pos: nat, strcnt: nat) returns (ret: int, pos': nat, strcnt': nat)
    requires 0 < pos <= |data|
    ensures Checked(ParseTagged(17, data[pos..], strcnt), data, pos - 1, ret, pos', strcnt')
    decreases |data| - pos, 2
  {
    hide ToNat, FromLE, Parse, ParseItems, ParsePairs;
    ghost var whole := ParseItems(data[pos..], strcnt, true);
    ListTagged(data[pos..], strcnt);
    hide ParseTagged;
    ret, pos', strcnt' := 16, pos, strcnt;
    var cnt: nat := 0;
    if pos' == |data| {
      ItemsStep(data, pos', strcnt', true);
      return OVERREAD, pos', strcnt';
    }
    ghost var first := true;
    while ToNat(data[pos']) != END
      invariant pos <= pos' < |data| && ret >= 16
      invariant ListSoFar(whole, ParseItems(data[pos'..], strcnt', first), ret + 8 * cnt, 8)
      decreases |data| - pos'
    {
      ItemsStep(data, pos', strcnt', first);
      var r, p, k := CalcRetLen(data, pos', strcnt');
      if r == BAD { return BAD, pos', strcnt'; }
      if r == OVERREAD { return OVERREAD, pos', strcnt'; }
      ret, pos', strcnt' := ret + r, p, k;
      cnt := cnt + 1;
      first := false;
      if |data| - pos' < 1 {
        ItemsStep(data, pos', strcnt', false);
        return BAD, pos', strcnt';
      }
    }
    ItemsStep(data, pos', strcnt', first);
    pos' := pos' + 1;
    ret := ret + 8 * cnt;
  }

  lemma ListTagged(r: bytes, k: nat)
    ensures ParseTagged(17, r, k) == match ParseItems(r, k, true) case AllFail => Fail case AllOverread => Overread case AllDone(ts, rest, k') => Done(List(ts), rest, k')
    ensures ParseTagged(16, r, k) == match ParsePairs(r, k, true) case AllFail => Fail case AllOverread => Overread case AllDone(ts, rest, k') => Done(Table(ts), rest, k')
  {
    hide FromLE, ParseItems, ParsePairs;
  }

  /** One more item. */
  lemma ItemsStep(data: bytes, pos: nat, k: nat, first: bool)
    requires pos <= |data|
    ensures var all := ParseItems(data[pos..], k, first);
            if pos == |data| then all == if first then AllOverread else AllFail
            else if ToNat(data[pos]) == END then all == AllDone(Nil, data[pos + 1..], k)
            else match Parse(data[pos..], k)
              case Fail => all == AllFail
              case Overread => all == AllOverread
              case Done(t, rest, k') => all == Prepend(t, ParseItems(rest, k', false))
  {
    ParseShortens(data[pos..], k);
    hide Parse, ToNat;
    if pos < |data| { assert data[pos..][0] == data[pos] && data[pos..][1..] == data[pos + 1..]; }
  }

  lemma PairsStep(data: bytes, pos: nat, k: nat, first: bool)
    requires pos <= |data|
    ensures var all := ParsePairs(data[pos..], k, first);
            if pos == |data| then all == if first then AllOverread else AllFail
            else if ToNat(data[pos]) == END then all == AllDone(Nil, data[pos + 1..], k)
            else match Parse(data[pos..], k)
              case Fail => all == AllFail
              case Overread => all == AllOverread
              case Done(key, rest, k') =>
                match Parse(rest, k')
                case Fail => all == AllFail
                case Overread => all == AllOverread
                case Done(value, rest', k'') => all == Prepend(key, Prepend(value, ParsePairs(rest', k'', false)))
  {
    ParseShortens(data[pos..], k);
    var p := Parse(data[pos..], k);
    if p.Done? { ParseShortens(p.rest, p.k); }
    hide Parse, ToNat;
    if pos < |data| { assert data[pos..][0] == data[pos] && data[pos..][1..] == data[pos + 1..]; }
  }

  method CalcHash(data: bytes, pos: nat, strcnt: nat) returns (ret: int, pos': nat, strcnt': nat)
    requires 0 < pos <= |data|
    ensures Checked(ParseTagged(16, data[pos..], strcnt), data, pos - 1, ret, pos', strcnt')
    decreases |data| - pos, 2
  {
    hide ToNat, FromLE, Parse, ParseItems, ParsePairs;
    ghost var whole := ParsePairs(data[pos..], strcnt, true);
    ListTagged(data[pos..], strcnt);
    hide ParseTagged;
    ret, pos', strcnt' := 16, pos, strcnt;
    var cnt: nat := 0;
    if pos' == |data| {
      PairsStep(data, pos', strcnt', true);
      return OVERREAD, pos', strcnt';
    }
    ghost var first := true;
    while ToNat(data[pos']) != END
      invariant pos <= pos' < |data| && ret >= 16
      invariant ListSoFar(whole, ParsePairs(data[pos'..], strcnt', first), ret + 16 * cnt, 8)
      decreases |data| - pos'
    {
      PairsStep(data, pos', strcnt', first);
      ghost var c0 := Parse(data[pos'..], strcnt');
      var r, p, k := CalcRetLen(data, pos', strcnt');
      if r == BAD { return BAD, pos', strcnt'; }
      if r == OVERREAD { return OVERREAD, pos', strcnt'; }
      ret, pos', strcnt' := ret + r, p, k;
      ghost var c1 := Parse(data[pos'..], strcnt');
      r, p, k := CalcRetLen(data, pos', strcnt');
      if r == BAD { return BAD, pos', strcnt'; }
      if r == OVERREAD { return OVERREAD, pos', strcnt'; }
      ret, pos', strcnt' := ret + r, p, k;
      PairSizes(c0.t, c1.t, ParsePairs(data[pos'..], strcnt', false));
      cnt := cnt + 1;
      first := false;
      if |data| - pos' < 1 {
        PairsStep(data, pos', strcnt', false);
        return BAD, pos', strcnt';
      }
    }
    PairsStep(data, pos', strcnt', first);
    EvenPairs(data[pos..], strcnt);
    pos' := pos' + 1;
    ret := ret + 16 * cnt;
  }

  lemma PairSizes(key: Tree, value: Tree, p: AllParsed)
    ensures p.AllDone? ==>
              var ts := Prepend(key, Prepend(value, p)).ts;
              AllSizes(ts) == Size(key) + Size(value) + AllSizes(p.ts) && Length(ts) == 2 + Length(p.ts)
  {
    hide Size;
  }

  lemma EvenPairs(d: bytes, k: nat)
    ensures ParsePairs(d, k, true).AllDone? ==> var ts := ParsePairs(d, k, true).ts; 16 * (Length(ts) / 2) == 8 * Length(ts)
  {
    PairsSound(d, k, true);
    var p := ParsePairs(d, k, true);
    hide ParsePairs;
    if p.AllDone? { EvenLength(p.ts); }
  }

  lemma {:induction false} EvenLength(ts: Trees)
    requires Even(ts)
    ensures Length(ts) % 2 == 0
  {
    if ts.Cons? { EvenLength(ts.tail.tail); }
  }

  // ---------- the second pass ----------

  /** What the second pass leaves, if it parses `p`: `o` counts the bytes written. */
  ghost predicate Built(p: Parsed, data: bytes, known: seq<bytes>, o: nat, v: Value, pos': nat, o': nat, known': seq<bytes>) {
    && p.Done? && pos' <= |data| && data[pos'..] == p.rest && Eval(p.t, known) == (v, known') && o' == o + Written(p.t)
    && |known'| == |known| + Strings(p.t) == p.k
  }

  /** The second pass; `strings` has room for all the strings that the first pass counted. */
  method DoParse(data: bytes, pos: nat, o: nat, strings: array<bytes>, next: nat)
    returns (v: Value, pos': nat, o': nat, next': nat)
    requires pos <= |data| && Parse(data[pos..], next).Done? && next + Strings(Parse(data[pos..], next).t) <= strings.Length
    modifies strings
    ensures next' <= strings.Length && pos < pos'
    ensures Built(Parse(data[pos..], next), data, old(strings[..next]), o, v, pos', o', strings[..next'])
    ensures Writes(Kept(Spelled(Parse(data[pos..], next).t, old(strings[..next])).0), v)
    decreases |data| - pos, 1
  {
    ParseShortens(data[pos..], next);
    hide ToNat, FromLE, ParseTagged, ParseItems, ParsePairs, Built, Writes, Kept, Spelled;
    ghost var known := strings[..next];
    assert data[pos..][0] == data[pos] && data[pos..][1..] == data[pos + 1..];
    var tag := ToNat(data[pos]);
    KnownTag(tag, data[pos + 1..], next);
    pos', o', next' := pos + 1, o, next;
    if tag <= 3 || 100 <= tag < 150 {
      v, pos', o', next' := BuildText(data, pos', o, strings, next, tag);
    } else if 4 <= tag <= 7 || 150 <= tag < 200 {
      v, pos' := BuildRef(data, pos', o, strings, next, tag);
    } else if 8 <= tag <= 15 || tag == 20 || 200 <= tag < 220 || tag == 18 || tag == 19 {
      v, pos', o' := BuildNumber(data, pos', o, strings[..next], tag);
    } else if tag == 17 {
      v, pos', o', next' := BuildArray(data, pos', o, strings, next);
    } else {
      v, pos', o', next' := BuildHash(data, pos', o, strings, next);
    }
    BuiltIsWritten(data, pos, next, known, o, v, pos', o', strings[..next']);
  }

  lemma BuiltIsWritten(data: bytes, pos: nat, next: nat, known: seq<bytes>, o: nat, v: Value, pos': nat, o': nat, known': seq<bytes>)
    requires pos <= |data| && Built(Parse(data[pos..], next), data, known, o, v, pos', o', known')
    ensures Writes(Kept(Spelled(Parse(data[pos..], next).t, known).0), v)
  {
    ParseSound(data[pos..], next);
    hide Parse, Eval, Written, Strings, Writes, Kept, Spelled, Encoded, Fits, Scoped;
    AnswerIsWritten(Parse(data[pos..], next).t, known);
  }

  method BuildText(data: bytes, pos: nat, o: nat, strings: array<bytes>, next: nat, tag: nat)
    returns (v: Value, pos': nat, o': nat, next': nat)
    requires pos <= |data| && (tag <= 3 || 100 <= tag < 150) && ParseTagged(tag, data[pos..], next).Done? && next < strings.Length
    modifies strings
    ensures next' <= strings.Length && pos <= pos'
    ensures Built(ParseTagged(tag, data[pos..], next), data, old(strings[..next]), o, v, pos', o', strings[..next'])
  {
    hide ToNat, FromLE, ParseItems, ParsePairs;
    pos', next' := pos, next;
    var len: nat;
    if tag >= 100 {
      len := tag - 100;
    } else {
      var l := tag + 1;
      SliceIs(data, pos', l);
      len := FromLE(data[pos'..pos' + l]);
      pos' := pos' + l;
    }
    SliceIs(data, pos', len);
    var s := data[pos'..pos' + len];
    strings[next'] := s;
    next' := next' + 1;
    assert strings[..next'] == old(strings[..next]) + [s];
    v, o', pos' := VStr(s), o + 8 + (len + 8) / 8 * 8, pos' + len;
  }

  method BuildRef(data: bytes, pos: nat, o: nat, strings: array<bytes>, next: nat, tag: nat) returns (v: Value, pos': nat)
    requires pos <= |data| && (4 <= tag <= 7 || 150 <= tag < 200) && ParseTagged(tag, data[pos..], next).Done? && next <= strings.Length
    ensures pos <= pos' && Built(ParseTagged(tag, data[pos..], next), data, strings[..next], o, v, pos', o, strings[..next])
  {
    hide ToNat, FromLE, ParseItems, ParsePairs;
    pos' := pos;
    var id: nat;
    if tag <= 7 {
      var l := tag - 3;
      SliceIs(data, pos', l);
      id := FromLE(data[pos'..pos' + l]);
      pos' := pos' + l;
    } else {
      id := tag - 150;
    }
    v := VStr(strings[id]);
  }

  method BuildNumber(data: bytes, pos: nat, o: nat, ghost known: seq<bytes>, tag: nat) returns (v: Value, pos': nat, o': nat)
    requires pos <= |data| && (8 <= tag <= 15 || tag == 20 || 200 <= tag < 220 || tag == 18 || tag == 19)
    requires ParseTagged(tag, data[pos..], |known|).Done?
    ensures pos <= pos' && Built(ParseTagged(tag, data[pos..], |known|), data, known, o, v, pos', o', known)
  {
    hide ToNat, FromLE, ParseItems, ParsePairs;
    pos', o' := pos, o;
    if tag <= 15 || tag == 20 {
      var len := if tag <= 15 then tag - 7 else 8;
      SliceIs(data, pos', len);
      var n := FromLE(data[pos'..pos' + len]);
      v := if tag == 20 then VData(n) else VNum(n);
      pos', o' := pos' + len, o' + 16;
    } else {
      v := if tag >= 200 then VNum(tag - 200) else VBool(tag == 19);
    }
  }

  /** While the items of an array are built. */
  ghost predicate ItemValues(whole: Trees, known0: seq<bytes>, left: Trees, known: seq<bytes>, vs: seq<Value>) {
    EvalAll(whole, known0) == (vs + EvalAll(left, known).0, EvalAll(left, known).1)
  }

  ghost predicate ItemsSoFar(whole: Trees, known0: seq<bytes>, left: Trees, known: seq<bytes>, vs: seq<Value>, written: nat, limit: nat) {
    && ItemValues(whole, known0, left, known, vs)
    && AllWritten(whole) == written + AllWritten(left) && Length(whole) == |vs| + Length(left)
    && |known0| + AllStrings(whole) == |known| + AllStrings(left) <= limit
  }

  method BuildArray(data: bytes, pos: nat, o: nat, strings: array<bytes>, next: nat)
    returns (v: Value, pos': nat, o': nat, next': nat)
    requires pos <= |data| && ParseTagged(17, data[pos..], next).Done? && next + Strings(ParseTagged(17, data[pos..], next).t) <= strings.Length
    modifies strings
    ensures next' <= strings.Length && pos <= pos'
    ensures Built(ParseTagged(17, data[pos..], next), data, old(strings[..next]), o, v, pos', o', strings[..next'])
    decreases |data| - pos, 2
  {
    hide ToNat, FromLE, Parse, ParseItems, ParsePairs;
    ghost var whole, known0 := ParseItems(data[pos..], next, true), strings[..next];
    ListTagged(data[pos..], next);
    hide ParseTagged;
    ItemsStep(data, pos, next, true);
    pos', o', next' := pos, o + 16, next;
    var vs: seq<Value> := [];
    ghost var first := true;
    ItemsStart(whole.ts, known0, strings.Length);
    hide ItemsSoFar;
    while ToNat(data[pos']) != END
      invariant pos <= pos' < |data| && next' <= strings.Length && o' >= o + 16
      invariant var left := ParseItems(data[pos'..], next', first); left.AllDone? && left.rest == whole.rest && left.k == whole.k
      invariant ItemsSoFar(whole.ts, known0, ParseItems(data[pos'..], next', first).ts, strings[..next'], vs, o' - o - 16, strings.Length)
      decreases |data| - pos'
    {
      ItemsStep(data, pos', next', first);
      ghost var p, left, known, was := Parse(data[pos'..], next'), ParseItems(data[pos'..], next', first), strings[..next'], o' - o - 16;
      ParseShortens(data[pos'..], next');
      ItemFits(whole.ts, known0, left.ts, known, vs, was, strings.Length);
      var w;
      w, pos', o', next' := DoParse(data, pos', o', strings, next');
      ParsedCount(p, data, known, o + 16 + was, w, pos', o', strings[..next']);
      ItemBuilt(whole.ts, known0, left.ts, known, vs, was, strings.Length, w, strings[..next']);
      vs := vs + [w];
      first := false;
      ItemsStep(data, pos', next', false);
    }
    ItemsStep(data, pos', next', first);
    ItemsEnd(whole.ts, known0, strings[..next'], vs, o' - o - 16, strings.Length);
    pos' := pos' + 1;
    o' := o' + 8 * |vs|;
    v := VArray(vs);
  }

  lemma ItemsStart(ts: Trees, known: seq<bytes>, limit: nat)
    requires |known| + AllStrings(ts) <= limit
    ensures ItemsSoFar(ts, known, ts, known, [], 0, limit)
  {
    assert [] + EvalAll(ts, known).0 == EvalAll(ts, known).0;
  }

  lemma ItemFits(whole: Trees, known0: seq<bytes>, left: Trees, known: seq<bytes>, vs: seq<Value>, written: nat, limit: nat)
    requires ItemsSoFar(whole, known0, left, known, vs, written, limit)
    ensures left.Cons? ==> |known| + Strings(left.head) <= limit
  {
  }

  lemma ParsedCount(p: Parsed, data: bytes, known: seq<bytes>, o: nat, v: Value, pos': nat, o': nat, known': seq<bytes>)
    requires Built(p, data, known, o, v, pos', o', known')
    ensures p.Done? && Eval(p.t, known) == (v, known') && o' == o + Written(p.t) && |known'| == |known| + Strings(p.t) == p.k
    ensures pos' <= |data| && data[pos'..] == p.rest
  {
    hide Eval, Written, Strings;
  }

  lemma ItemValue(whole: Trees, known0: seq<bytes>, left: Trees, known: seq<bytes>, vs: seq<Value>, w: Value, known': seq<bytes>)
    requires ItemValues(whole, known0, left, known, vs) && left.Cons? && Eval(left.head, known) == (w, known')
    ensures ItemValues(whole, known0, left.tail, known', vs + [w])
  {
    hide Eval;
    var rest := EvalAll(left.tail, known').0;
    assert EvalAll(left, known).0 == [w] + rest;
    assert vs + ([w] + rest) == (vs + [w]) + rest;
  }

  lemma ItemCounts(left: Trees)
    requires left.Cons?
    ensures AllWritten(left) == Written(left.head) + AllWritten(left.tail) && Length(left) == 1 + Length(left.tail)
    ensures AllStrings(left) == Strings(left.head) + AllStrings(left.tail)
  {
  }

  lemma ItemBuilt(whole: Trees, known0: seq<bytes>, left: Trees, known: seq<bytes>, vs: seq<Value>, written: nat, limit: nat, w: Value, known': seq<bytes>)
    requires ItemsSoFar(whole, known0, left, known, vs, written, limit) && left.Cons?
    requires Eval(left.head, known) == (w, known') && |known'| == |known| + Strings(left.head)
    ensures ItemsSoFar(whole, known0, left.tail, known', vs + [w], written + Written(left.head), limit)
  {
    ItemValue(whole, known0, left, known, vs, w, known');
    ItemCounts(left);
    hide ItemValues, Eval, Written, Strings, AllWritten, AllStrings, Length;
  }

  lemma ItemsEnd(whole: Trees, known0: seq<bytes>, known: seq<bytes>, vs: seq<Value>, written: nat, limit: nat)
    requires ItemsSoFar(whole, known0, Nil, known, vs, written, limit)
    ensures EvalAll(whole, known0) == (vs, known) && AllWritten(whole) == written && Length(whole) == |vs|
    ensures |known| == |known0| + AllStrings(whole)
  {
    assert vs + [] == vs;
  }

  /** While the pairs of a table are built. */
  ghost predicate PairsSoFar(whole: Trees, known0: seq<bytes>, left: Trees, known: seq<bytes>, ps: seq<(bytes, Value)>, written: nat, limit: nat) {
    && EvalPairs(whole, known0) == (ps + EvalPairs(left, known).0, EvalPairs(left, known).1)
    && AllWritten(whole) == written + AllWritten(left) && StringKeys(whole) == |ps| + StringKeys(left)
    && |known0| + AllStrings(whole) == |known| + AllStrings(left) <= limit
  }

  /** A pair whose key is not a string is built, too, but its place is used again. */
  method BuildHash(data: bytes, pos: nat, o: nat, strings: array<bytes>, next: nat)
    returns (v: Value, pos': nat, o': nat, next': nat)
    requires pos <= |data| && ParseTagged(16, data[pos..], next).Done? && next + Strings(ParseTagged(16, data[pos..], next).t) <= strings.Length
    modifies strings
    ensures next' <= strings.Length && pos <= pos'
    ensures Built(ParseTagged(16, data[pos..], next), data, old(strings[..next]), o, v, pos', o', strings[..next'])
    decreases |data| - pos, 3
  {
    TableStrings();
    hide ToNat, FromLE, Parse, ParseItems, ParsePairs, Eval, Written, Strings, Built, EvalPairs, StringKeys, AllWritten, AllStrings;
    ghost var whole, known0 := ParsePairs(data[pos..], next, true), strings[..next];
    ListTagged(data[pos..], next);
    hide ParseTagged;
    PairsStep(data, pos, next, true);
    pos', o', next' := pos, o + 16, next;
    var ps: seq<(bytes, Value)> := [];
    ghost var first := true;
    PairsStart(whole.ts, known0, strings.Length);
    hide PairsSoFar;
    while ToNat(data[pos']) != END
      invariant pos <= pos' < |data| && next' <= strings.Length && o' >= o + 16
      invariant var left := ParsePairs(data[pos'..], next', first); left.AllDone? && left.rest == whole.rest && left.k == whole.k
      invariant PairsSoFar(whole.ts, known0, ParsePairs(data[pos'..], next', first).ts, strings[..next'], ps, o' - o - 16, strings.Length)
      decreases |data| - pos'
    {
      PairsStep(data, pos', next', first);
      ghost var p, left, known, was := Parse(data[pos'..], next'), ParsePairs(data[pos'..], next', first), strings[..next'], o' - o - 16;
      PairFits(whole.ts, known0, left.ts, known, ps, was, strings.Length);
      ghost var q, known1 := Parse(p.rest, p.k), [];
      var key, value;
      key, value, pos', o', next', known1 := BuildPair(data, pos', o', strings, next');
      PairBuilt(whole.ts, known0, left.ts, known, ps, was, strings.Length, key, known1, value, strings[..next']);
      if key.VStr? { ps := ps + [(key.s, value)]; }
      first := false;
      PairsStep(data, pos', next', false);
    }
    PairsStep(data, pos', next', first);
    PairsEnd(whole.ts, known0, strings[..next'], ps, o' - o - 16, strings.Length);
    pos' := pos' + 1;
    o' := o' + 16 * |ps|;
    v := VHash(ps);
    HashBuilt(whole.ts, whole.rest, whole.k, data, known0, o, ps, pos', strings[..next']);
  }

  lemma TableStrings()
    ensures forall ts :: Strings(Table(ts)) == AllStrings(ts)
  {
  }

  lemma HashBuilt(ts: Trees, rest: bytes, k: nat, data: bytes, known: seq<bytes>, o: nat, ps: seq<(bytes, Value)>, pos': nat, known': seq<bytes>)
    requires EvalPairs(ts, known) == (ps, known') && StringKeys(ts) == |ps| && |known'| == |known| + AllStrings(ts) == k
    requires pos' <= |data| && data[pos'..] == rest
    ensures Built(Done(Table(ts), rest, k), data, known, o, VHash(ps), pos', o + 16 + AllWritten(ts) + 16 * |ps|, known')
  {
    hide EvalPairs, StringKeys, AllStrings, AllWritten;
  }

  method BuildPair(data: bytes, pos: nat, o: nat, strings: array<bytes>, next: nat)
    returns (key: Value, value: Value, pos': nat, o': nat, next': nat, ghost known1: seq<bytes>)
    requires pos <= |data|
    requires var p := Parse(data[pos..], next);
             p.Done? && var q := Parse(p.rest, p.k); q.Done? && next + Strings(p.t) + Strings(q.t) <= strings.Length
    modifies strings
    ensures next' <= strings.Length && pos < pos' <= |data|
    ensures var p := Parse(data[pos..], next); var q := Parse(p.rest, p.k);
            && Eval(p.t, old(strings[..next])) == (key, known1) && |known1| == next + Strings(p.t)
            && Eval(q.t, known1) == (value, strings[..next']) && next' == |known1| + Strings(q.t) == q.k
            && o' == o + Written(p.t) + Written(q.t) && data[pos'..] == q.rest
    decreases |data| - pos, 2
  {
    hide Parse, Built;
    ghost var p, known := Parse(data[pos..], next), strings[..next];
    key, pos', o', next' := DoParse(data, pos, o, strings, next);
    ParsedCount(p, data, known, o, key, pos', o', strings[..next']);
    known1 := strings[..next'];
    ghost var q, was := Parse(data[pos'..], next'), o';
    value, pos', o', next' := DoParse(data, pos', o', strings, next');
    ParsedCount(q, data, known1, was, value, pos', o', strings[..next']);
  }

  lemma PairsStart(ts: Trees, known: seq<bytes>, limit: nat)
    requires |known| + AllStrings(ts) <= limit
    ensures PairsSoFar(ts, known, ts, known, [], 0, limit)
  {
    assert [] + EvalPairs(ts, known).0 == EvalPairs(ts, known).0;
  }

  lemma PairFits(whole: Trees, known0: seq<bytes>, left: Trees, known: seq<bytes>, ps: seq<(bytes, Value)>, written: nat, limit: nat)
    requires PairsSoFar(whole, known0, left, known, ps, written, limit)
    ensures left.Cons? && left.tail.Cons? ==> |known| + Strings(left.head) + Strings(left.tail.head) <= limit
  {
    if left.Cons? && left.tail.Cons? {
      assert AllStrings(left) == Strings(left.head) + (Strings(left.tail.head) + AllStrings(left.tail.tail));
    }
  }

  lemma PairBuilt(whole: Trees, known0: seq<bytes>, left: Trees, known: seq<bytes>, ps: seq<(bytes, Value)>, written: nat, limit: nat,
                  key: Value, known1: seq<bytes>, value: Value, known2: seq<bytes>)
    requires PairsSoFar(whole, known0, left, known, ps, written, limit) && left.Cons? && left.tail.Cons?
    requires Eval(left.head, known) == (key, known1) && |known1| == |known| + Strings(left.head)
    requires Eval(left.tail.head, known1) == (value, known2) && |known2| == |known1| + Strings(left.tail.head)
    ensures PairsSoFar(whole, known0, left.tail.tail, known2, if key.VStr? then ps + [(key.s, value)] else ps,
                       written + Written(left.head) + Written(left.tail.head), limit)
  {
    IsStringEval(left.head, known);
    PairStep(left, known, key, known1, value, known2);
    hide Eval, Written, Strings, IsString, EvalPairs, AllWritten, AllStrings, StringKeys;
    JoinPairs(ps, if key.VStr? then [(key.s, value)] else [], EvalPairs(left.tail.tail, known2).0);
    assert ps + [] == ps;
  }

  lemma JoinPairs(a: seq<(bytes, Value)>, b: seq<(bytes, Value)>, c: seq<(bytes, Value)>)
    ensures a + (b + c) == (a + b) + c
  {
  }

  lemma PairStep(left: Trees, known: seq<bytes>, key: Value, known1: seq<bytes>, value: Value, known2: seq<bytes>)
    requires left.Cons? && left.tail.Cons?
    requires Eval(left.head, known) == (key, known1) && Eval(left.tail.head, known1) == (value, known2)
    ensures var (ps, k) := EvalPairs(left.tail.tail, known2); EvalPairs(left, known) == ((if key.VStr? then [(key.s, value)] else []) + ps, k)
    ensures AllWritten(left) == Written(left.head) + (Written(left.tail.head) + AllWritten(left.tail.tail))
    ensures AllStrings(left) == Strings(left.head) + (Strings(left.tail.head) + AllStrings(left.tail.tail))
    ensures StringKeys(left) == (if IsString(left.head) then 1 else 0) + StringKeys(left.tail.tail)
  {
    hide Eval, Written, Strings, IsString;
  }

  lemma PairsEnd(whole: Trees, known0: seq<bytes>, known: seq<bytes>, ps: seq<(bytes, Value)>, written: nat, limit: nat)
    requires PairsSoFar(whole, known0, Nil, known, ps, written, limit)
    ensures EvalPairs(whole, known0) == (ps, known) && AllWritten(whole) == written && StringKeys(whole) == |ps|
    ensures |known| == |known0| + AllStrings(whole)
  {
    NoPairs(known);
    hide EvalPairs, StringKeys, AllStrings, AllWritten;
    assert ps + [] == ps;
  }

  lemma NoPairs(known: seq<bytes>)
    ensures EvalPairs(Nil, known) == ([], known) && StringKeys(Nil) == 0 && AllStrings(Nil) == 0 && AllWritten(Nil) == 0
  {
  }

  // ---------- both passes ----------

  datatype Answer = Rejected | Unsafe | Answer(v: Value, space: nat, written: nat)

  /** An answer is checked, space is allocated for it, and it is built.  What is built is what the bytes stand
      for: the value that its tree writes when references are spelled out and pairs without a string as their key
      are left out, so a value that was written out is read back, whatever follows.  It fits the space.  The check looks behind the input exactly if it ends in the tag of an array
      or a table that the parser reaches; everything else is rejected. */
  method ParseResult(data: bytes) returns (a: Answer)
    ensures a.Answer? <==> Parse(data, 0).Done?
    ensures a.Unsafe? <==> EndsInTag(data, 0)
    ensures a.Answer? ==>
              var t := Parse(data, 0).t;
              && a.v == Eval(t, []).0 && a.written == Written(t) <= a.space == Size(t) && (a.written == a.space <==> KeysAreStrings(t))
    ensures a.Answer? ==> Writes(Kept(Spelled(Parse(data, 0).t, []).0), a.v)
    ensures forall t: Tree, v: Value, rest: bytes | Fits(t) && Writes(t, v) && data == Encoded(t) + rest :: a.Answer? && a.v == v
  {
    hide Parse, EndsInTag, Encoded, Eval, Fits;
    forall t: Tree, v: Value, rest: bytes | Fits(t) && Writes(t, v) && data == Encoded(t) + rest
      ensures Parse(data, 0).Done? && Eval(Parse(data, 0).t, []).0 == v
    {
      WrittenNeedsNothing(t, v, 0);
      ParseEncoded(t, rest, 0);
      WrittenIsRead(t, v, []);
    }
    OverreadExactly(data, 0);
    assert data[0..] == data;
    var retlen, end, strcnt := CalcRetLen(data, 0, 0);
    if retlen == BAD { return Rejected; }
    if retlen == OVERREAD { return Unsafe; }
    var strings := new bytes[strcnt](_ => []);
    ParseSound(data, 0);
    WrittenFits(Parse(data, 0).t);
    AnswerIsWritten(Parse(data, 0).t, []);
    var v, pos, o, next := DoParse(data, 0, 0, strings, 0);
    a := Answer(v, retlen, o);
  }

  /** Encoded answers are parsed, whatever follows them. */
  method ParseEncodedAnswer(t: Tree, rest: bytes) returns (a: Answer)
    requires Fits(t) && Scoped(t, 0)
    ensures a.Answer? && a.v == Eval(t, []).0 && a.space == Size(t) && a.written == Written(t)
  {
    hide Parse, Encoded;
    ParseEncoded(t, rest, 0);
    a := ParseResult(Encoded(t) + rest);
  }
}
