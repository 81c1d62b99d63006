/** final_project/router_1.py: a distance-vector router. ROUTING_TABLE maps each known
    destination to the cost of reaching it and the neighbour to send through; an update
    message carries a router's whole table to its neighbours, which relax their own tables
    with it, and a hello message carries a line of text from one router to another. */
module Router {
  import opened Outcomes
  import opened ByteCodec
  import opened Text
  import opened DottedDecimal

  /** THIS_NODE of router_1.py: "127.0.0." followed by the digit its file name ends in. */
  const ThisNode: string := "127.0.0.1"

  /** One entry of ROUTING_TABLE, the list `[cost, next hop]`. */
  datatype Route = Route(cost: int, nextHop: string)

  /** ROUTING_TABLE as a value: its keys in insertion order (the order a dict iterates
      in) and the entry of each key. */
  datatype Table = Table(order: seq<string>, routes: map<string, Route>)

  /** The keys listed once each, and exactly the keys of the map. */
  ghost predicate WellFormed(t: Table) {
    (forall i, j :: 0 <= i < j < |t.order| ==> t.order[i] != t.order[j]) &&
    (forall d :: d in t.routes <==> d in t.order)
  }

  /** One `(address, cost)` pair of an update message. */
  datatype Advert = Advert(dest: string, cost: nat)

  // ---------------------------------------------------------------- format_update

  /** `[int(elem) for elem in item.split(".")]`: the first part that is not a decimal
      number raises ValueError. */
  function PartValues(parts: seq<string>): (r: Result<seq<nat>>)
    ensures r.Success? <==> forall i :: 0 <= i < |parts| ==> ParseDecimal(parts[i]).Success?
    ensures r.Success? ==> |r.value| == |parts| && forall i :: 0 <= i < |parts| ==> r.value[i] == ParseDecimal(parts[i]).value
    ensures r.Failure? ==> r.error == ValueError
  {
    if |parts| == 0 then Success([])
    else
      var v :- ParseDecimal(parts[0]);
      Prepend([v], PartValues(parts[1..]))
  }

  /** The bytes format_update writes for one entry: the parts of its address, then its
      cost; a part or a cost outside 0..255 raises ValueError when appended. */
  function EntryWire(addr: string, cost: int): Result<seq<byte>> {
    var values :- PartValues(Split(addr, '.'));
    if IsBytes(values) && 0 <= cost < 256 then
      var b: seq<byte> := values;
      Success(b + [cost as byte])
    else Failure(ValueError)
  }

  /** The entries of the given keys, in order. */
  function EntriesWire(t: Table, keys: seq<string>): Result<seq<byte>>
    requires forall k :: k in keys ==> k in t.routes
  {
    if |keys| == 0 then Success([])
    else
      var e :- EntryWire(keys[0], t.routes[keys[0]].cost);
      Prepend(e, EntriesWire(t, keys[1..]))
  }

  /** The whole update message: a 0, then every entry in table order. */
  function UpdateWire(t: Table): Result<seq<byte>>
    requires WellFormed(t)
  {
    Prepend([0], EntriesWire(t, t.order))
  }

  // ---------------------------------------------------------------- parse_update

  /** The comprehension of parse_update from index i: every five bytes give an address
      (four numbers joined by ".") and a cost; a last group shorter than five bytes makes
      `msg[i+4]` raise IndexError. */
  function UpdatePairs(msg: seq<byte>, i: nat): Result<seq<Advert>>
    decreases |msg| - i
  {
    if i >= |msg| then Success([])
    else if i + 4 >= |msg| then Failure(IndexError)
    else Prepend([Advert(Join(".", DecimalParts(msg[i..i + 4])), msg[i + 4])], UpdatePairs(msg, i + 5))
  }

  /** One iteration of parse_update's loop, giving the new table and whether it changed.
      A pair naming this router is skipped; otherwise the neighbour's own entry is read
      (KeyError if it has none). A known destination takes the route through the
      neighbour when that is cheaper; an unknown one is added with it. */
  function RelaxStep(t: Table, neigh: string, a: Advert): Result<(Table, bool)> {
    if a.dest == ThisNode then Success((t, false))
    else if neigh !in t.routes then Failure(KeyError)
    else
      var via := t.routes[neigh].cost + a.cost;
      if a.dest in t.routes then
        if via < t.routes[a.dest].cost then Success((Table(t.order, t.routes[a.dest := Route(via, neigh)]), true))
        else Success((t, false))
      else Success((Table(t.order + [a.dest], t.routes[a.dest := Route(via, neigh)]), true))
  }

  /** What parse_update leaves behind: the table (after a KeyError, as far as the loop got),
      the value of update_flag, and the exception if one was raised. */
  datatype Outcome = Outcome(table: Table, changed: bool, error: Option<Error>)

  /** The loop of parse_update over the pairs. */
  function RelaxAll(t: Table, neigh: string, pairs: seq<Advert>): Outcome
    decreases |pairs|
  {
    if |pairs| == 0 then Outcome(t, false, None)
    else
      match RelaxStep(t, neigh, pairs[0])
      case Failure(e) => Outcome(t, false, Some(e))
      case Success(s) =>
        var o := RelaxAll(s.0, neigh, pairs[1..]);
        Outcome(o.table, s.1 || o.changed, o.error)
  }

  /** parse_update on a table: decoding fails before anything changes. */
  function UpdateSpec(t: Table, msg: seq<byte>, neigh: string): Outcome {
    match UpdatePairs(msg, 1)
    case Failure(e) => Outcome(t, false, Some(e))
    case Success(pairs) => RelaxAll(t, neigh, pairs)
  }

  /** What parse_update returns or raises. */
  function UpdateResult(o: Outcome): Result<bool> {
    if o.error.Some? then Failure(o.error.value) else Success(o.changed)
  }

  /** `update_flag` seen before the rest of the loop runs. */
  function After(flag: bool, o: Outcome): Outcome {
    Outcome(o.table, flag || o.changed, o.error)
  }

  // ---------------------------------------------------------------- hello messages

  /** format_hello: a 1, the parts of the source address, the parts of the destination
      address, then the code of every character; a part that is not a decimal number or
      a value outside 0..255 raises ValueError. */
  function HelloWire(text: string, src: string, dst: string): Result<seq<byte>> {
    var s :- DottedBytes(Split(src, '.'));
    var d :- DottedBytes(Split(dst, '.'));
    if IsBytes(Codes(text)) then
      var c: seq<byte> := Codes(text);
      Success([1] + s + d + c)
    else Failure(ValueError)
  }

  /** The three fields parse_hello decodes. */
  datatype Hello = Hello(src: string, dest: string, data: string)

  /** The dotted text of a byte list, empty or not, converts back to it when it has bytes. */
  lemma DottedBack(b: seq<byte>)
    ensures |b| >= 1 ==> DottedBytes(Split(Join(".", DecimalParts(b)), '.')) == Success(b)
  {
    if |b| >= 1 {
      DottedRoundTrip(b);
    }
  }

  /** The decoding half of parse_hello: bytes 1..5 and 5..9 as dotted addresses (slices
      that may come out short), the rest as characters. */
  function ParseHello(msg: seq<byte>): (r: Hello)
    ensures |msg| >= 2 ==> DottedBytes(Split(r.src, '.')) == Success(Slice(msg, 1, 5))
    ensures |msg| >= 6 ==> DottedBytes(Split(r.dest, '.')) == Success(Slice(msg, 5, 9))
    ensures |msg| <= 1 ==> r.src == "" && r.dest == ""
    ensures |msg| <= 5 ==> r.dest == ""
    ensures |r.data| == |Drop(msg, 9)| && forall i :: 0 <= i < |r.data| ==> r.data[i] as int == msg[9 + i]
  {
    var src := Slice(msg, 1, 5);
    var dst := Slice(msg, 5, 9);
    DottedBack(src);
    DottedBack(dst);
    CharsAt(Drop(msg, 9));
    Hello(Join(".", DecimalParts(src)), Join(".", DecimalParts(dst)), Chars(Drop(msg, 9)))
  }

  // ---------------------------------------------------------------- the routing table

  /** ROUTING_TABLE, which parse_update changes in place. */
  class RoutingTable {
    var order: seq<string>
    var routes: map<string, Route>

    function State(): Table
      reads this
    {
      Table(order, routes)
    }

    ghost predicate Valid()
      reads this
    {
      WellFormed(State())
    }

    /** The table read_file builds, given as it is. */
    constructor (order0: seq<string>, routes0: map<string, Route>)
      requires WellFormed(Table(order0, routes0))
      ensures Valid() && State() == Table(order0, routes0)
    {
      order := order0;
      routes := routes0;
    }

    /** format_update. */
    method FormatUpdate() returns (r: Result<seq<byte>>)
      requires Valid()
      ensures r == UpdateWire(State())
    {
      var msg: seq<byte> := [0];
      ghost var t := State();
      for i := 0 to |order|
        invariant UpdateWire(t) == Prepend(msg, EntriesWire(t, order[i..]))
      {
        EntriesStep(msg, t, order[i..]);
        assert order[i..][1..] == order[i + 1..];
        var withEntry := AppendEntry(msg, order[i], routes[order[i]].cost);
        if withEntry.Failure? {
          return withEntry;
        }
        msg := withEntry.value;
      }
      PrependOntoEmpty(msg);
      r := Success(msg);
    }

    /** parse_update: relaxes the table with a neighbour's update message; the table is
        changed in place, up to the pair that raised if one does. */
    method ParseUpdate(msg: seq<byte>, neighAddr: string) returns (r: Result<bool>)
      requires Valid()
      modifies this
      ensures Valid()
      ensures State() == UpdateSpec(old(State()), msg, neighAddr).table
      ensures r == UpdateResult(UpdateSpec(old(State()), msg, neighAddr))
    {
      var data := UpdatePairs(msg, 1);
      if data.Failure? {
        return Failure(data.error);
      }
      var pairs := data.value;
      var updateFlag := false;
      ghost var t0 := State();
      for k := 0 to |pairs|
        invariant Valid()
        invariant After(updateFlag, RelaxAll(State(), neighAddr, pairs[k..])) == RelaxAll(t0, neighAddr, pairs)
      {
        AfterStep(updateFlag, State(), neighAddr, pairs[k..]);
        assert pairs[k..][0] == pairs[k] && pairs[k..][1..] == pairs[k + 1..];
        var step := Relax(pairs[k], neighAddr);
        if step.Failure? {
          return Failure(step.error);
        }
        if step.value {
          updateFlag := true;
        }
      }
      r := Success(updateFlag);
    }

    /** One iteration of parse_update's loop on the pair `a`: the table changes in place,
        and the result says whether it did. */
    method Relax(a: Advert, neighAddr: string) returns (r: Result<bool>)
      requires Valid()
      modifies this
      ensures Valid()
      ensures RelaxStep(old(State()), neighAddr, a).Failure? ==>
        r == Failure(RelaxStep(old(State()), neighAddr, a).error) && State() == old(State())
      ensures RelaxStep(old(State()), neighAddr, a).Success? ==>
        r == Success(RelaxStep(old(State()), neighAddr, a).value.1) && State() == RelaxStep(old(State()), neighAddr, a).value.0
    {
      RelaxStepWellFormed(State(), neighAddr, a);
      var dataAddr, cost := a.dest, a.cost;
      if dataAddr == ThisNode {
        return Success(false);
      }
      if dataAddr in routes {
        if neighAddr !in routes {
          return Failure(KeyError);
        }
        if routes[neighAddr].cost + cost < routes[dataAddr].cost {
          routes := routes[dataAddr := routes[dataAddr].(cost := routes[neighAddr].cost + cost)];
          routes := routes[dataAddr := routes[dataAddr].(nextHop := neighAddr)];
          return Success(true);
        }
        return Success(false);
      }
      if neighAddr !in routes {
        return Failure(KeyError);
      }
      routes := routes[dataAddr := Route(routes[neighAddr].cost + cost, neighAddr)];
      order := order + [dataAddr];
      r := Success(true);
    }
  }

  /** The body of format_update's loop for one entry: the parts of its address, read
      with `int` first and appended next, then its cost. */
  method AppendEntry(msg: seq<byte>, item: string, cost: int) returns (r: Result<seq<byte>>)
    ensures r == Prepend(msg, EntryWire(item, cost))
  {
    EntryWireCases(item, cost);
    var neighParts := PartValues(Split(item, '.'));
    if neighParts.Failure? {
      return Failure(neighParts.error);
    }
    var appended := AppendAll(msg, neighParts.value);
    if appended.Failure? {
      return Failure(appended.error);
    }
    if !(0 <= cost < 256) {
      return Failure(ValueError);
    }
    assert appended.value + [cost as byte] == msg + (neighParts.value + [cost]);
    r := Success(appended.value + [cost as byte]);
  }

  /** format_hello. */
  method FormatHello(msgTxt: string, srcNode: string, dstNode: string) returns (r: Result<seq<byte>>)
    ensures r == HelloWire(msgTxt, srcNode, dstNode)
  {
    var msg: seq<byte> := [1];
    var withSrc := AppendDotted(msg, Split(srcNode, '.'));
    if withSrc.Failure? {
      return withSrc;
    }
    var withDst := AppendDotted(withSrc.value, Split(dstNode, '.'));
    if withDst.Failure? {
      return withDst;
    }
    r := AppendAll(withDst.value, Codes(msgTxt));
  }

  // ---------------------------------------------------------------- properties

  /** A step keeps the keys listed once each. */
  lemma RelaxStepWellFormed(t: Table, neigh: string, a: Advert)
    requires WellFormed(t)
    ensures RelaxStep(t, neigh, a).Success? ==> WellFormed(RelaxStep(t, neigh, a).value.0)
  {
  }

  /** One entry of format_update's loop, seen from the buffer written so far. */
  lemma EntriesStep(msg: seq<byte>, t: Table, keys: seq<string>)
    requires |keys| > 0 && forall k :: k in keys ==> k in t.routes
    ensures EntryWire(keys[0], t.routes[keys[0]].cost).Failure? ==> Prepend(msg, EntriesWire(t, keys)) == Failure(ValueError)
    ensures EntryWire(keys[0], t.routes[keys[0]].cost).Success? ==>
      Prepend(msg, EntriesWire(t, keys)) == Prepend(msg + EntryWire(keys[0], t.routes[keys[0]].cost).value, EntriesWire(t, keys[1..]))
  {
    var e := EntryWire(keys[0], t.routes[keys[0]].cost);
    if e.Success? {
      PrependTwice(msg, e.value, EntriesWire(t, keys[1..]));
    }
  }

  /** The three ways an entry fails, each a ValueError, and what it writes otherwise. */
  lemma EntryWireCases(addr: string, cost: int)
    ensures EntryWire(addr, cost).Failure? ==> EntryWire(addr, cost).error == ValueError
    ensures EntryWire(addr, cost).Success? <==>
      PartValues(Split(addr, '.')).Success? && IsBytes(PartValues(Split(addr, '.')).value) && 0 <= cost < 256
    ensures EntryWire(addr, cost).Success? ==> EntryWire(addr, cost).value == PartValues(Split(addr, '.')).value + [cost]
  {
  }

  /** One iteration of parse_update's loop, seen from the flag so far. */
  lemma AfterStep(flag: bool, t: Table, neigh: string, pairs: seq<Advert>)
    requires |pairs| > 0
    ensures RelaxStep(t, neigh, pairs[0]).Failure? ==>
      After(flag, RelaxAll(t, neigh, pairs)) == Outcome(t, flag, Some(RelaxStep(t, neigh, pairs[0]).error))
    ensures RelaxStep(t, neigh, pairs[0]).Success? ==>
      var s := RelaxStep(t, neigh, pairs[0]).value;
      After(flag, RelaxAll(t, neigh, pairs)) == After(flag || s.1, RelaxAll(s.0, neigh, pairs[1..]))
  {
  }

  /** Every key of t keeps its position in the order and gets no dearer. */
  ghost predicate Improves(t: Table, u: Table) {
    |t.order| <= |u.order| && u.order[..|t.order|] == t.order &&
    forall d :: d in t.routes ==> d in u.routes && u.routes[d].cost <= t.routes[d].cost
  }

  /** Some key of u is new, or cheaper than in t. */
  ghost predicate StrictlyImproves(t: Table, u: Table) {
    exists d :: d in u.routes && (d !in t.routes || u.routes[d].cost < t.routes[d].cost)
  }

  /** Route r for d came through neigh from one of the pairs. */
  ghost predicate FromNeighbour(t: Table, neigh: string, pairs: seq<Advert>, d: string, r: Route) {
    neigh in t.routes &&
    exists k :: 0 <= k < |pairs| && pairs[k].dest == d && r == Route(t.routes[neigh].cost + pairs[k].cost, neigh)
  }

  lemma ImprovesTrans(t: Table, u: Table, v: Table)
    requires Improves(t, u) && Improves(u, v)
    ensures Improves(t, v)
  {
    assert v.order[..|t.order|] == v.order[..|u.order|][..|t.order|];
  }

  lemma StrictThenImproves(t: Table, u: Table, v: Table)
    requires StrictlyImproves(t, u) && Improves(u, v)
    ensures v != t
  {
    var d :| d in u.routes && (d !in t.routes || u.routes[d].cost < t.routes[d].cost);
    assert d in v.routes && v.routes[d].cost <= u.routes[d].cost;
  }

  lemma StrictThenStrict(t: Table, u: Table, v: Table)
    requires StrictlyImproves(t, u) && Improves(u, v)
    ensures StrictlyImproves(t, v)
  {
    var d :| d in u.routes && (d !in t.routes || u.routes[d].cost < t.routes[d].cost);
    assert d in v.routes && v.routes[d].cost <= u.routes[d].cost;
  }

  /** One iteration: this router's entry and the neighbour's stay as they are, nothing gets
      dearer, and the flag is raised exactly when something got cheaper or was added. */
  lemma RelaxStepEffect(t: Table, neigh: string, a: Advert)
    ensures RelaxStep(t, neigh, a).Failure? <==> a.dest != ThisNode && neigh !in t.routes
    ensures RelaxStep(t, neigh, a).Failure? ==> RelaxStep(t, neigh, a).error == KeyError
    ensures RelaxStep(t, neigh, a).Success? ==>
      var (u, changed) := RelaxStep(t, neigh, a).value;
      Improves(t, u) &&
      (changed ==> StrictlyImproves(t, u)) && (!changed ==> u == t) &&
      (ThisNode in u.routes <==> ThisNode in t.routes) &&
      (ThisNode in t.routes ==> u.routes[ThisNode] == t.routes[ThisNode]) &&
      (neigh in u.routes <==> neigh in t.routes) &&
      (neigh in t.routes ==> u.routes[neigh] == t.routes[neigh]) &&
      (forall d :: d in u.routes ==> (d in t.routes && u.routes[d] == t.routes[d]) || (d == a.dest && u.routes[d] == Route(t.routes[neigh].cost + a.cost, neigh))) &&
      (a.dest != ThisNode ==> a.dest in u.routes && u.routes[a.dest].cost <= t.routes[neigh].cost + a.cost)
  {
    if RelaxStep(t, neigh, a).Success? {
      var (u, changed) := RelaxStep(t, neigh, a).value;
      if changed {
        assert a.dest in u.routes;
      }
      assert u.order[..|t.order|] == t.order;
    }
  }

  /** parse_update's loop never adds, drops or changes this router's own entry. */
  lemma {:induction false} RelaxKeepsThisNode(t: Table, neigh: string, pairs: seq<Advert>)
    ensures var u := RelaxAll(t, neigh, pairs).table;
      (ThisNode in u.routes <==> ThisNode in t.routes) &&
      (ThisNode in t.routes ==> u.routes[ThisNode] == t.routes[ThisNode])
    decreases |pairs|
  {
    if |pairs| > 0 {
      RelaxStepEffect(t, neigh, pairs[0]);
      if RelaxStep(t, neigh, pairs[0]).Success? {
        RelaxKeepsThisNode(RelaxStep(t, neigh, pairs[0]).value.0, neigh, pairs[1..]);
      }
    }
  }

  /** parse_update's loop keeps the table well formed, keeps the order of the keys it had,
      never makes a route dearer, and raises the flag exactly when the table changed. */
  lemma {:induction false} RelaxMonotone(t: Table, neigh: string, pairs: seq<Advert>)
    ensures var o := RelaxAll(t, neigh, pairs);
      (WellFormed(t) ==> WellFormed(o.table)) && Improves(t, o.table) && (o.changed <==> o.table != t) &&
      (o.changed <==> StrictlyImproves(t, o.table))
    decreases |pairs|
  {
    var o := RelaxAll(t, neigh, pairs);
    if |pairs| == 0 {
      assert t.order[..|t.order|] == t.order;
    } else {
      RelaxStepEffect(t, neigh, pairs[0]);
      if WellFormed(t) {
        RelaxStepWellFormed(t, neigh, pairs[0]);
      }
      if RelaxStep(t, neigh, pairs[0]).Failure? {
        assert t.order[..|t.order|] == t.order;
      } else {
        var (u, changed) := RelaxStep(t, neigh, pairs[0]).value;
        RelaxMonotone(u, neigh, pairs[1..]);
        ImprovesTrans(t, u, o.table);
        if changed {
          StrictThenImproves(t, u, o.table);
          StrictThenStrict(t, u, o.table);
        }
      }
    }
  }

  /** When parse_update's loop finishes, every destination a pair named (except this router)
      costs at most the neighbour's cost plus the advertised one, and every entry is either
      as it was or the route through the neighbour that one of the pairs offered. With
      RelaxMonotone, each cost is the least of its old cost and the offers for it. */
  lemma {:induction false} RelaxBest(t: Table, neigh: string, pairs: seq<Advert>)
    requires RelaxAll(t, neigh, pairs).error.None?
    ensures var u := RelaxAll(t, neigh, pairs).table;
      forall k :: 0 <= k < |pairs| && pairs[k].dest != ThisNode ==>
        neigh in t.routes && pairs[k].dest in u.routes && u.routes[pairs[k].dest].cost <= t.routes[neigh].cost + pairs[k].cost
    ensures var u := RelaxAll(t, neigh, pairs).table;
      forall d :: d in u.routes ==>
        (d in t.routes && u.routes[d] == t.routes[d]) || (d != ThisNode && FromNeighbour(t, neigh, pairs, d, u.routes[d]))
    decreases |pairs|
  {
    if |pairs| > 0 {
      var u := RelaxAll(t, neigh, pairs).table;
      RelaxStepEffect(t, neigh, pairs[0]);
      var (t1, changed) := RelaxStep(t, neigh, pairs[0]).value;
      RelaxBest(t1, neigh, pairs[1..]);
      RelaxMonotone(t1, neigh, pairs[1..]);
      forall k | 0 <= k < |pairs| && pairs[k].dest != ThisNode
        ensures neigh in t.routes && pairs[k].dest in u.routes && u.routes[pairs[k].dest].cost <= t.routes[neigh].cost + pairs[k].cost
      {
        if k > 0 {
          assert pairs[1..][k - 1] == pairs[k];
        }
      }
      forall d | d in u.routes
        ensures (d in t.routes && u.routes[d] == t.routes[d]) || (d != ThisNode && FromNeighbour(t, neigh, pairs, d, u.routes[d]))
      {
        if FromNeighbour(t1, neigh, pairs[1..], d, u.routes[d]) {
          var k :| 0 <= k < |pairs[1..]| && pairs[1..][k].dest == d && u.routes[d] == Route(t1.routes[neigh].cost + pairs[1..][k].cost, neigh);
          assert pairs[k + 1] == pairs[1..][k];
        } else if !(d in t.routes && t1.routes[d] == t.routes[d]) {
          assert pairs[0].dest == d;
        }
      }
    }
  }

  /** What parse_update does to a table, gathered: a message that does not split into
      five-byte groups raises IndexError and changes nothing; otherwise the table stays
      well formed, this router's own entry is never touched, no route gets dearer, and the
      result is True exactly when the table changed. */
  lemma ParseUpdateEffect(t: Table, msg: seq<byte>, neigh: string)
    requires WellFormed(t)
    ensures var o := UpdateSpec(t, msg, neigh);
      WellFormed(o.table) && Improves(t, o.table) &&
      (ThisNode in o.table.routes <==> ThisNode in t.routes) &&
      (ThisNode in t.routes ==> o.table.routes[ThisNode] == t.routes[ThisNode]) &&
      (UpdateResult(o) == Success(true) <==> o.error.None? && o.table != t) &&
      (UpdateResult(o) == Success(true) <==> o.error.None? && StrictlyImproves(t, o.table))
    ensures UpdatePairs(msg, 1).Failure? <==> UpdateResult(UpdateSpec(t, msg, neigh)) == Failure(IndexError)
    ensures UpdatePairs(msg, 1).Failure? ==> UpdateSpec(t, msg, neigh).table == t
  {
    UpdatePairsShape(msg, 1);
    if UpdatePairs(msg, 1).Success? {
      var pairs := UpdatePairs(msg, 1).value;
      RelaxKeepsThisNode(t, neigh, pairs);
      RelaxMonotone(t, neigh, pairs);
      RelaxOnlyKeyError(t, neigh, pairs);
    } else {
      assert t.order[..|t.order|] == t.order;
    }
  }

  /** The loop raises nothing but KeyError. */
  lemma {:induction false} RelaxOnlyKeyError(t: Table, neigh: string, pairs: seq<Advert>)
    ensures RelaxAll(t, neigh, pairs).error.Some? ==> RelaxAll(t, neigh, pairs).error.value == KeyError
    decreases |pairs|
  {
    if |pairs| > 0 {
      RelaxStepEffect(t, neigh, pairs[0]);
      if RelaxStep(t, neigh, pairs[0]).Success? {
        RelaxOnlyKeyError(RelaxStep(t, neigh, pairs[0]).value.0, neigh, pairs[1..]);
      }
    }
  }

  /** The comprehension of parse_update succeeds exactly when the bytes from i on come in
      groups of five, and then reads group j as address `msg[i+5j..i+5j+4]` and cost
      `msg[i+5j+4]`. */
  lemma {:induction false} UpdatePairsShape(msg: seq<byte>, i: nat)
    ensures UpdatePairs(msg, i).Success? <==> i >= |msg| || (|msg| - i) % 5 == 0
    ensures UpdatePairs(msg, i).Failure? ==> UpdatePairs(msg, i).error == IndexError
    ensures UpdatePairs(msg, i).Success? && i <= |msg| ==>
      var p := UpdatePairs(msg, i).value;
      |p| == (|msg| - i) / 5 &&
      forall j :: 0 <= j < |p| ==> p[j] == Advert(Join(".", DecimalParts(msg[i + 5 * j..i + 5 * j + 4])), msg[i + 5 * j + 4])
    decreases |msg| - i
  {
    if i < |msg| && i + 4 < |msg| {
      UpdatePairsShape(msg, i + 5);
      var rest := UpdatePairs(msg, i + 5);
      if rest.Success? {
        var p := UpdatePairs(msg, i).value;
        forall j | 0 <= j < |p|
          ensures p[j] == Advert(Join(".", DecimalParts(msg[i + 5 * j..i + 5 * j + 4])), msg[i + 5 * j + 4])
        {
          if j > 0 {
            assert p[j] == rest.value[j - 1];
            assert i + 5 + 5 * (j - 1) == i + 5 * j;
          }
        }
      }
    }
  }

  /** `int` reads back every `str` of a number. */
  lemma {:induction false} PartValuesOfDecimals(b: seq<nat>)
    ensures PartValues(DecimalParts(b)) == Success(b)
  {
    if |b| > 0 {
      ParseDecimalOfDecimal(b[0]);
      DecimalPartsCons(b);
      PartValuesOfDecimals(b[1..]);
      assert b == [b[0]] + b[1..];
    }
  }

  /** The entry of a dotted-quad address and a cost below 256 is the four octets and the cost. */
  lemma EntryOfQuad(quad: seq<byte>, cost: int)
    requires |quad| == 4 && 0 <= cost < 256
    ensures EntryWire(Join(".", DecimalParts(quad)), cost) == Success(quad + [cost as byte])
  {
    DecimalPartsNoDot(quad);
    SplitJoin(DecimalParts(quad), '.');
    PartValuesOfDecimals(quad);
  }

  /** The entries of keys that are dotted quads with costs below 256: five bytes each. */
  lemma {:induction false} EntriesLayout(t: Table, keys: seq<string>, quads: seq<seq<byte>>)
    requires forall k :: k in keys ==> k in t.routes
    requires |quads| == |keys|
    requires forall j :: 0 <= j < |keys| ==>
      |quads[j]| == 4 && keys[j] == Join(".", DecimalParts(quads[j])) && 0 <= t.routes[keys[j]].cost < 256
    ensures EntriesWire(t, keys).Success?
    ensures var e := EntriesWire(t, keys).value;
      |e| == 5 * |keys| &&
      forall j :: 0 <= j < |keys| ==> e[5 * j..5 * j + 4] == quads[j] && e[5 * j + 4] == t.routes[keys[j]].cost
    decreases |keys|
  {
    if |keys| > 0 {
      EntryOfQuad(quads[0], t.routes[keys[0]].cost);
      EntriesLayout(t, keys[1..], quads[1..]);
      var head := quads[0] + [t.routes[keys[0]].cost as byte];
      var rest := EntriesWire(t, keys[1..]).value;
      var e := EntriesWire(t, keys).value;
      assert e == head + rest;
      forall j | 0 <= j < |keys|
        ensures e[5 * j..5 * j + 4] == quads[j] && e[5 * j + 4] == t.routes[keys[j]].cost
      {
        if j > 0 {
          BlockAt(e, head, rest, j);
          assert keys[1..][j - 1] == keys[j] && quads[1..][j - 1] == quads[j];
        } else {
          assert e[..4] == quads[0];
        }
      }
    }
  }

  lemma BlockAt(e: seq<byte>, head: seq<byte>, rest: seq<byte>, j: nat)
    requires e == head + rest && |head| == 5 && 1 <= j && 5 * j + 4 < |e|
    ensures e[5 * j..5 * j + 4] == rest[5 * (j - 1)..5 * (j - 1) + 4] && e[5 * j + 4] == rest[5 * (j - 1) + 4]
  {
  }

  /** An update message written by format_update from a table of dotted-quad addresses
      with costs below 256 is 1 + 5 bytes per entry, and the decoding in parse_update reads
      back exactly the table's addresses and costs, in table order. */
  lemma UpdateRoundTrip(t: Table, quads: seq<seq<byte>>)
    requires WellFormed(t)
    requires |quads| == |t.order|
    requires forall j :: 0 <= j < |quads| ==>
      |quads[j]| == 4 && t.order[j] == Join(".", DecimalParts(quads[j])) && 0 <= t.routes[t.order[j]].cost < 256
    ensures UpdateWire(t).Success? && |UpdateWire(t).value| == 1 + 5 * |t.order|
    ensures UpdatePairs(UpdateWire(t).value, 1).Success?
    ensures var p := UpdatePairs(UpdateWire(t).value, 1).value;
      |p| == |t.order| &&
      forall j :: 0 <= j < |p| ==> p[j].dest == t.order[j] && p[j].cost == t.routes[t.order[j]].cost
  {
    EntriesLayout(t, t.order, quads);
    var e := EntriesWire(t, t.order).value;
    var costs := seq(|t.order|, j requires 0 <= j < |t.order| => t.routes[t.order[j]].cost);
    assert UpdateWire(t).value == [0] + e;
    DecodeEntries([0] + e, e, t.order, quads, costs);
  }

  /** Decoding a 0 followed by five-byte entries gives one pair per entry, in order. */
  lemma DecodeEntries(w: seq<byte>, e: seq<byte>, keys: seq<string>, quads: seq<seq<byte>>, costs: seq<int>)
    requires w == [0] + e && |e| == 5 * |keys| && |quads| == |keys| && |costs| == |keys|
    requires forall j :: 0 <= j < |keys| ==>
      e[5 * j..5 * j + 4] == quads[j] && e[5 * j + 4] == costs[j] && keys[j] == Join(".", DecimalParts(quads[j]))
    ensures UpdatePairs(w, 1).Success?
    ensures var p := UpdatePairs(w, 1).value;
      |p| == |keys| && forall j :: 0 <= j < |p| ==> p[j].dest == keys[j] && p[j].cost == costs[j]
  {
    UpdatePairsShape(w, 1);
    var p := UpdatePairs(w, 1).value;
    assert |p| == |keys|;
    forall j | 0 <= j < |p|
      ensures p[j].dest == keys[j] && p[j].cost == costs[j]
    {
      PairOfEntry(w, e, p, j);
    }
  }

  lemma PairOfEntry(w: seq<byte>, e: seq<byte>, p: seq<Advert>, j: nat)
    requires w == [0] + e && 5 * j + 4 < |e| && j < |p|
    requires p[j] == Advert(Join(".", DecimalParts(w[1 + 5 * j..1 + 5 * j + 4])), w[1 + 5 * j + 4])
    ensures p[j] == Advert(Join(".", DecimalParts(e[5 * j..5 * j + 4])), e[5 * j + 4])
  {
    var a, b := w[1 + 5 * j..1 + 5 * j + 4], e[5 * j..5 * j + 4];
    forall i | 0 <= i < 4
      ensures a[i] == b[i]
    {
      assert a[i] == w[1 + 5 * j + i] && w[1 + 5 * j + i] == e[5 * j + i];
    }
    assert a == b;
    assert w[1 + 5 * j + 4] == e[5 * j + 4];
  }

  /** A hello message written by format_hello from two dotted-quad addresses and a text of
      one-byte characters is 9 bytes plus one per character, and parse_hello reads back
      the two addresses and the text; any character from 256 on is a ValueError. */
  lemma HelloRoundTrip(text: string, src: seq<byte>, dst: seq<byte>)
    requires |src| == 4 && |dst| == 4
    ensures var w := HelloWire(text, Join(".", DecimalParts(src)), Join(".", DecimalParts(dst)));
      (w.Success? <==> forall i :: 0 <= i < |text| ==> text[i] as int < 256) &&
      (w.Failure? ==> w.error == ValueError) &&
      (w.Success? ==>
         |w.value| == 9 + |text| && w.value[0] == 1 &&
         ParseHello(w.value) == Hello(Join(".", DecimalParts(src)), Join(".", DecimalParts(dst)), text))
  {
    DottedRoundTrip(src);
    DottedRoundTrip(dst);
    var w := HelloWire(text, Join(".", DecimalParts(src)), Join(".", DecimalParts(dst)));
    if w.Success? {
      var m := w.value;
      assert m == [1] + src + dst + Codes(text);
      assert Slice(m, 1, 5) == src;
      assert Slice(m, 5, 9) == dst;
      assert Drop(m, 9) == Codes(text);
      CharsOfCodes(text);
    }
  }
}
