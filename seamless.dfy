/** The package-level registry of seamless.go and its control logic: the
    `host:port` validator, parsing of a comma-separated list, removal of
    every occurrence of an address, selection that reads at the cursor and
    then advances, and the set/get/add/remove handlers with HTTP stripped
    away (each answers with a client error or the rendered list). */
module Seamless {
  import opened Results
  import opened Seqs
  import opened Strings
  import opened Arith

  // ---------------------------------------------------------------------
  // Address validation: the regular expression ^[^:]+:[0-9]+$ as the
  // automaton that recognises it.
  // ---------------------------------------------------------------------

  /** Where the matcher stands: nothing read yet, inside the host, just
      after the colon, inside the port, or failed for good. */
  datatype Scan = Start | Host | Colon | Port | Reject

  predicate IsDigit(c: char)
  {
    '0' <= c <= '9'
  }

  predicate AllDigits(s: string)
  {
    forall i :: 0 <= i < |s| ==> IsDigit(s[i])
  }

  function Step(q: Scan, c: char): Scan
  {
    match q
    case Start => if c == ':' then Reject else Host
    case Host => if c == ':' then Colon else Host
    case Colon => if IsDigit(c) then Port else Reject
    case Port => if IsDigit(c) then Port else Reject
    case Reject => Reject
  }

  function Run(q: Scan, s: string): Scan
    decreases |s|
  {
    if s == [] then q else Run(Step(q, s[0]), s[1..])
  }

  /** The address `host:port`. */
  function Address(host: string, port: string): string
  {
    host + ":" + port
  }

  /** `s` is `host:port` with a non-empty, colon-free host and a non-empty
      run of decimal digits as the port. */
  ghost predicate IsAddress(s: string)
  {
    exists host, port :: s == Address(host, port) && host != [] && ':' !in host &&
                         port != [] && AllDigits(port)
  }

  /** `isValidBackend`: the whole string matches `^[^:]+:[0-9]+$`, which is
      to say it has the `host:port` shape. */
  predicate IsValidBackend(backend: string): (valid: bool)
    ensures valid <==> IsAddress(backend)
  {
    ValidBackendShape(backend);
    Run(Start, backend) == Port
  }

  /** A string that starts with a digit is all digits exactly when its
      tail is. */
  lemma AllDigitsCons(s: string)
    requires s != [] && IsDigit(s[0])
    ensures AllDigits(s) <==> AllDigits(s[1..])
  {
    if AllDigits(s[1..]) {
      forall i | 0 <= i < |s| ensures IsDigit(s[i]) {
        if i > 0 {
          assert s[i] == s[1..][i - 1];
        }
      }
    }
  }

  lemma {:induction false} RunReject(s: string)
    ensures Run(Reject, s) == Reject
    decreases |s|
  {
    if s != [] {
      RunReject(s[1..]);
    }
  }

  lemma {:induction false} RunPort(s: string)
    ensures Run(Port, s) == Port <==> AllDigits(s)
    decreases |s|
  {
    if s != [] {
      if IsDigit(s[0]) {
        RunPort(s[1..]);
        AllDigitsCons(s);
      } else {
        RunReject(s[1..]);
      }
    }
  }

  lemma {:induction false} RunColon(s: string)
    ensures Run(Colon, s) == Port <==> s != [] && AllDigits(s)
  {
    if s != [] {
      if IsDigit(s[0]) {
        RunPort(s[1..]);
        AllDigitsCons(s);
      } else {
        RunReject(s[1..]);
      }
    }
  }

  /** Inside the host the matcher accepts exactly when a colon comes and
      everything after the first colon is a non-empty run of digits. */
  lemma {:induction false} RunHost(s: string)
    ensures var k := IndexOf(s, ':');
            Run(Host, s) == Port <==> k + 1 < |s| && AllDigits(s[k + 1..])
    decreases |s|
  {
    if s != [] {
      if s[0] == ':' {
        RunColon(s[1..]);
      } else {
        RunHost(s[1..]);
        IndexOfTail(s, ':');
      }
    }
  }

  /** The validator accepts exactly when the first colon is preceded by at
      least one character and followed by a non-empty run of digits. */
  lemma {:induction false} ValidBackendAtColon(s: string)
    ensures var k := IndexOf(s, ':');
            Run(Start, s) == Port <==> 0 < k && k + 1 < |s| && AllDigits(s[k + 1..])
  {
    if s != [] {
      if s[0] == ':' {
        RunReject(s[1..]);
      } else {
        RunHost(s[1..]);
        IndexOfTail(s, ':');
      }
    }
  }

  /** The automaton accepts exactly the addresses `host:port` with a
      non-empty, colon-free host and a non-empty decimal port. */
  lemma {:induction false} ValidBackendShape(s: string)
    ensures Run(Start, s) == Port <==> IsAddress(s)
  {
    ValidBackendAtColon(s);
    var k := IndexOf(s, ':');
    if Run(Start, s) == Port {
      var host, port := s[..k], s[k + 1..];
      assert s == Address(host, port);
    }
    if IsAddress(s) {
      var host, port :| s == Address(host, port) && host != [] && ':' !in host &&
                        port != [] && AllDigits(port);
      IndexOfAfter(host, ':', port);
      assert s[k + 1..] == port;
    }
  }

  /** Hence a valid backend holds exactly one colon and ends in a digit. */
  lemma {:induction false} ValidBackendColon(s: string)
    requires IsValidBackend(s)
    ensures Count(s, ':') == 1
    ensures IsDigit(s[|s| - 1])
  {
    assert IsAddress(s);
    var host, port :| s == Address(host, port) && host != [] && ':' !in host &&
                      port != [] && AllDigits(port);
    CountAppend(host + ":", port, ':');
    CountAppend(host, ":", ':');
    CountZero(host, ':');
    CountZero(port, ':');
    assert s[|s| - 1] == port[|port| - 1];
  }

  // ---------------------------------------------------------------------
  // parseBackends
  // ---------------------------------------------------------------------

  /** Every piece with its surrounding white space removed. */
  function Trimmed(pieces: seq<string>): seq<string>
  {
    seq(|pieces|, i requires 0 <= i < |pieces| => TrimSpace(pieces[i]))
  }

  predicate AllValid(list: seq<string>)
  {
    forall i :: 0 <= i < |list| ==> IsValidBackend(list[i])
  }

  /** Index of the first invalid address, `|list|` when all are valid. */
  function FirstInvalid(list: seq<string>): (k: nat)
    ensures k <= |list|
    ensures k < |list| ==> !IsValidBackend(list[k])
    ensures forall j :: 0 <= j < k ==> IsValidBackend(list[j])
  {
    if list == [] then 0
    else if !IsValidBackend(list[0]) then 0
    else 1 + FirstInvalid(list[1..])
  }

  /** The error `parseBackends` reports for an invalid address. */
  function NotValid(backend: string): string
  {
    "'" + backend + "' is not valid network address"
  }

  /** `parseBackends`: split on commas, trim every piece in place and stop
      at the first piece that is not a valid address. On success the result
      is the trimmed pieces, one per comma-separated piece and in input
      order; one invalid piece rejects the whole input. */
  method ParseBackends(str: string) returns (r: Result<seq<string>>)
    ensures r.Ok? <==> AllValid(Trimmed(Split(str, ',')))
    ensures r.Ok? ==> r.value == Trimmed(Split(str, ','))
    ensures r.Err? ==> r.msg == NotValid(Trimmed(Split(str, ','))[FirstInvalid(Trimmed(Split(str, ',')))])
  {
    ghost var pieces := Split(str, ',');
    ghost var want := Trimmed(pieces);
    var backends := Split(str, ',');
    for i := 0 to |backends|
      invariant |backends| == |pieces| == |want|
      invariant forall j :: 0 <= j < i ==> backends[j] == want[j] && IsValidBackend(want[j])
      invariant forall j :: i <= j < |backends| ==> backends[j] == pieces[j]
    {
      backends := backends[i := TrimSpace(backends[i])];
      if !IsValidBackend(backends[i]) {
        FirstInvalidAt(want, i);
        return Err(NotValid(backends[i]));
      }
    }
    assert backends == want;
    return Ok(backends);
  }

  /** An invalid address after a run of valid ones is the first invalid one. */
  lemma {:induction false} FirstInvalidAt(list: seq<string>, i: nat)
    requires i < |list| && !IsValidBackend(list[i])
    requires forall j :: 0 <= j < i ==> IsValidBackend(list[j])
    ensures FirstInvalid(list) == i && !AllValid(list)
  {
  }

  /** There is one piece per comma, plus one. */
  lemma {:induction false} ParsedCount(str: string)
    ensures |Trimmed(Split(str, ','))| == Count(str, ',') + 1
  {
    SplitCount(str, ',');
  }

  /** The empty input is rejected: it splits into one empty piece (so the
      source's check for zero pieces never fires), and the empty piece is
      not an address. */
  lemma EmptyInputRejected()
    ensures Split("", ',') == [""]
    ensures !AllValid(Trimmed(Split("", ',')))
  {
    assert Split("", ',') == [""];
    assert Trimmed([""])[0] == "";
  }

  /** What the list renders to (`getHandler`). */
  function Render(list: seq<string>): string
  {
    Join(list, ",") + "\n"
  }

  /** A parsed list renders back to text that parses to the same list: the
      list `get` shows, without its newline, can be fed back to `set`. */
  lemma {:induction false} RenderParseRoundTrip(str: string)
    requires AllValid(Trimmed(Split(str, ',')))
    ensures var list, body := Trimmed(Split(str, ',')), Render(Trimmed(Split(str, ',')));
            |body| > 0 && body[|body| - 1] == '\n' &&
            Trimmed(Split(body[..|body| - 1], ',')) == list && AllValid(list)
  {
    var list := Trimmed(Split(str, ','));
    var body := Render(list);
    assert body[..|body| - 1] == Join(list, ",");
    TrimmedCommaFree(str);
    SplitJoin(list, ',');
    assert Split(Join(list, ","), ',') == list;
    TrimmedIdempotent(Split(str, ','));
  }

  /** No trimmed piece of a comma split holds a comma. */
  lemma {:induction false} TrimmedCommaFree(str: string)
    ensures forall i :: 0 <= i < |Trimmed(Split(str, ','))| ==> ',' !in Trimmed(Split(str, ','))[i]
  {
    var pieces := Split(str, ',');
    SplitPieces(str, ',');
    forall i | 0 <= i < |pieces| ensures ',' !in Trimmed(pieces)[i] {
      TrimSpaceAbsent(pieces[i], ',');
    }
  }

  /** Trimming pieces that are already trimmed changes nothing. */
  lemma {:induction false} TrimmedIdempotent(pieces: seq<string>)
    ensures Trimmed(Trimmed(pieces)) == Trimmed(pieces)
  {
    var list := Trimmed(pieces);
    var twice := Trimmed(list);
    forall i | 0 <= i < |list| ensures twice[i] == list[i] {
      TrimSpaceIdempotent(pieces[i]);
    }
    assert twice == list;
  }

  // ---------------------------------------------------------------------
  // remove
  // ---------------------------------------------------------------------

  /** `remove`: deletes every `item` from `items`, shifting the survivors
      down in place; the survivors keep their order. */
  method Remove(items: seq<string>, item: string) returns (r: seq<string>)
    ensures r == Without(items, item)
    ensures |r| == |items| - Count(items, item)
    ensures |r| == |items| <==> item !in items
  {
    r := items;
    var i := 0;
    while i < |r|
      invariant i <= |r|
      invariant item !in r[..i]
      invariant Without(r, item) == Without(items, item)
      decreases |r| - i
    {
      if r[i] == item {
        WithoutRemoveAt(r, i, item);
        r := r[..i] + r[i + 1..];
      } else {
        assert r[..i + 1] == r[..i] + [r[i]];
        i := i + 1;
      }
    }
    assert r[..i] == r;
    WithoutAbsent(r, item);
    WithoutLength(items, item);
    CountZero(items, item);
  }

  // ---------------------------------------------------------------------
  // nextBackend: read at the cursor, then advance.
  // ---------------------------------------------------------------------

  /** The backends returned by `k` successive `nextBackend` calls on `s`,
      starting with the cursor at `cursor`. */
  function Served(s: seq<string>, cursor: nat, k: nat): (r: seq<string>)
    requires cursor < |s|
    ensures |r| == k
    decreases k
  {
    if k == 0 then [] else [s[cursor]] + Served(s, (cursor + 1) % |s|, k - 1)
  }

  /** One selection, then the rest from the advanced cursor. */
  lemma ServedStep(s: seq<string>, cursor: nat, k: nat)
    requires cursor < |s| && k > 0
    ensures Served(s, cursor, k) == [s[cursor]] + Served(s, (cursor + 1) % |s|, k - 1)
  {
  }

  /** Round robin from the cursor itself: the `j`-th call (from 0) returns
      the element `cursor + j` places on, wrapping around. */
  lemma {:induction false} ServedRoundRobin(s: seq<string>, cursor: nat, k: nat, j: nat)
    requires cursor < |s| && j < k
    ensures Served(s, cursor, k)[j] == s[(cursor + j) % |s|]
    decreases j
  {
    if j == 0 {
      ModUnique(cursor, 0, cursor, |s|);
    } else {
      var next := (cursor + 1) % |s|;
      assert Served(s, cursor, k)[j] == Served(s, next, k - 1)[j - 1];
      ServedRoundRobin(s, next, k - 1, j - 1);
      ModShift(cursor, j - 1, |s|);
    }
  }

  /** The accept loop's selections: `k` connections accepted one after the
      other, each given the backend `nextBackend` returns, are given
      `Served` of the list from the cursor the registry had, and the cursor
      ends `k` places on. */
  method ServeConnections(reg: Registry, k: nat) returns (served: seq<string>)
    requires reg.backends != [] && reg.CursorInBounds()
    modifies reg
    ensures reg.backends == old(reg.backends) && reg.CursorInBounds()
    ensures served == Served(old(reg.backends), old(reg.currentBackend), k)
    ensures reg.currentBackend == (old(reg.currentBackend) + k) % |reg.backends|
  {
    ghost var list, start := reg.backends, reg.currentBackend;
    ghost var n := |list|;
    served := [];
    ModUnique(start, 0, start, n);
    for i := 0 to k
      invariant reg.backends == list && reg.currentBackend < n
      invariant served + Served(list, reg.currentBackend, k - i) == Served(list, start, k)
      invariant reg.currentBackend == (start + i) % n
    {
      ghost var c := reg.currentBackend;
      ServedStep(list, c, k - i);
      StepMod(start + i, n);
      var r := reg.NextBackend();
      assert r == Ok(list[c]) && reg.currentBackend == (c + 1) % n;
      served := served + [r.value];
      assert served + Served(list, reg.currentBackend, k - i - 1) == Served(list, start, k);
    }
  }

  // ---------------------------------------------------------------------
  // The package-level state and the control handlers.
  // ---------------------------------------------------------------------

  /** What a handler answers: the rendered list (status 200) or a client
      error (status 400) with its message. */
  datatype Response = Rendered(body: string) | BadRequest(msg: string)

  const MissingBackend := "error: missing 'backend' parameter"

  function NotFound(backend: string): string
  {
    "error: backend '" + backend + "' not found"
  }

  /** The package variables `backends` and `currentBackend`. */
  class Registry {
    var backends: seq<string>
    var currentBackend: nat

    /** Both variables at their zero values. */
    constructor ()
      ensures backends == [] && currentBackend == 0
    {
      backends := [];
      currentBackend := 0;
    }

    /** What `nextBackend` needs in order not to index out of range. */
    predicate CursorInBounds()
      reads this
    {
      backends == [] || currentBackend < |backends|
    }

    /** `nextBackend` as written: read at the cursor, then advance it. With
        no backends it fails and changes nothing. The cursor must be in
        range on entry (the source indexes without a check); it is in range
        again on exit. */
    method NextBackend() returns (r: Result<string>)
      requires CursorInBounds()
      modifies this
      ensures backends == old(backends) && CursorInBounds()
      ensures old(backends) == [] ==> r == Err("No backends") && currentBackend == old(currentBackend)
      ensures old(backends) != [] ==>
                r == Ok(backends[old(currentBackend)]) &&
                currentBackend == (old(currentBackend) + 1) % |backends|
    {
      if |backends| == 0 {
        return Err("No backends");
      }
      r := Ok(backends[currentBackend]);
      currentBackend := (currentBackend + 1) % |backends|;
    }

    /** `nextBackend` with the cursor reduced modulo the length before it is
        read: it needs no precondition, leaves the cursor in range, and
        agrees with `NextBackend` whenever the cursor was in range. */
    method NextBackendClamped() returns (r: Result<string>)
      modifies this
      ensures backends == old(backends) && CursorInBounds()
      ensures old(backends) == [] ==> r == Err("No backends") && currentBackend == old(currentBackend)
      ensures old(backends) != [] ==> r == Ok(backends[old(currentBackend) % |backends|])
      ensures old(backends) != [] ==>
                currentBackend == (old(currentBackend) % |backends| + 1) % |backends|
      ensures old(backends) != [] && old(currentBackend) < |backends| ==>
                r == Ok(backends[old(currentBackend)]) &&
                currentBackend == (old(currentBackend) + 1) % |backends|
    {
      if |backends| == 0 {
        return Err("No backends");
      }
      var i := currentBackend % |backends|;
      if currentBackend < |backends| {
        ModUnique(currentBackend, 0, currentBackend, |backends|);
      }
      r := Ok(backends[i]);
      currentBackend := (i + 1) % |backends|;
    }

    /** `getHandler`: the list joined with commas, plus a newline. */
    method GetHandler() returns (resp: Response)
      ensures resp == Rendered(Render(backends))
    {
      resp := Rendered(Join(backends, ",") + "\n");
    }

    /** `setBackends`: an input with an invalid piece is a client error and
        leaves the list alone; otherwise the parsed list replaces it and is
        rendered. The cursor is not reset in either case. */
    method SetBackends(value: string) returns (resp: Response)
      modifies this
      ensures currentBackend == old(currentBackend)
      ensures var list := Trimmed(Split(value, ','));
              if AllValid(list) then
                backends == list && resp == Rendered(Render(list))
              else
                backends == old(backends) &&
                resp == BadRequest("error: " + NotValid(list[FirstInvalid(list)]))
    {
      var parsed := ParseBackends(value);
      if parsed.Err? {
        return BadRequest("error: " + parsed.msg);
      }
      backends := parsed.value;
      resp := GetHandler();
    }

    /** `addHandler`: an empty parameter is a client error; anything else is
        appended without a format check. The cursor is not touched, so a
        cursor in range of a non-empty list stays in range; after the list
        has been emptied, a stale cursor may fall outside the new list. */
    method AddHandler(backend: string) returns (resp: Response)
      modifies this
      ensures currentBackend == old(currentBackend)
      ensures backend == "" ==> backends == old(backends) && resp == BadRequest(MissingBackend)
      ensures backend != "" ==> backends == old(backends) + [backend] && resp == Rendered(Render(backends))
      ensures old(backends) != [] && old(CursorInBounds()) ==> CursorInBounds()
    {
      if |backend| == 0 {
        return BadRequest(MissingBackend);
      }
      backends := backends + [backend];
      resp := GetHandler();
    }

    /** `removeHandler`: an empty parameter, or an address that is not in
        the list (removal leaves the length unchanged), is a client error
        and leaves the list alone; otherwise every occurrence is deleted
        and the new list rendered. The cursor is not touched. */
    method RemoveHandler(backend: string) returns (resp: Response)
      modifies this
      ensures currentBackend == old(currentBackend)
      ensures backend == "" ==> backends == old(backends) && resp == BadRequest(MissingBackend)
      ensures backend != "" && backend !in old(backends) ==>
                backends == old(backends) && resp == BadRequest(NotFound(backend))
      ensures backend != "" && backend in old(backends) ==>
                backends == Without(old(backends), backend) && resp == Rendered(Render(backends))
    {
      if |backend| == 0 {
        return BadRequest(MissingBackend);
      }
      var newBackends := Remove(backends, backend);
      if |newBackends| == |backends| {
        return BadRequest(NotFound(backend));
      }
      backends := newBackends;
      resp := GetHandler();
    }
  }

  // ---------------------------------------------------------------------
  // How the cursor escapes the list.
  // ---------------------------------------------------------------------

  lemma DropLast(a: string, b: string, c: string)
    requires c != a && c != b
    ensures Without([a, b, c], c) == [a, b]
  {
    assert [a, b, c][1..] == [b, c] && [b, c][1..] == [c] && [c][1..] == [];
    assert Without([c], c) == [];
    assert Without([b, c], c) == [b];
  }

  /** Three backends added, two connections served (the cursor is now 2),
      then the third backend removed: the list has two elements and the
      cursor is still 2, so the next `nextBackend` would index out of
      range. */
  method CursorEscapesAfterRemove(a: string, b: string, c: string)
    returns (size: nat, cursor: nat, inBounds: bool)
    requires a != "" && b != "" && c != "" && c != a && c != b
    ensures size == 2 && cursor == 2 && !inBounds
  {
    var reg := new Registry();
    var added := reg.AddHandler(a);
    added := reg.AddHandler(b);
    added := reg.AddHandler(c);
    var served := reg.NextBackend();
    served := reg.NextBackend();
    DropLast(a, b, c);
    var removed := reg.RemoveHandler(c);
    size, cursor := |reg.backends|, reg.currentBackend;
    inBounds := reg.CursorInBounds();
  }

  /** The input `x:1` parses to the one-element list `[x:1]`. */
  lemma SingleAddressParses()
    ensures Trimmed(Split("x:1", ',')) == ["x:1"]
    ensures AllValid(["x:1"])
  {
    var x := "x:1";
    SingleAddressPieces(x);
    SingleAddressValid(x);
    assert Trimmed([x])[0] == x;
  }

  lemma SingleAddressPieces(x: string)
    requires x == "x:1"
    ensures Split(x, ',') == [x] && TrimSpace(x) == x
  {
    assert x[0] == 'x' && x[1] == ':' && x[2] == '1';
    SplitAbsent(x, ',');
    TrimSpaceFixed(x);
  }

  lemma SingleAddressValid(x: string)
    requires x == "x:1"
    ensures IsValidBackend(x)
  {
    assert x[1..] == ":1" && x[1..][1..] == "1" && x[1..][1..][1..] == "";
    assert Run(Port, "") == Port;
    assert Run(Colon, "1") == Port;
    assert Run(Host, ":1") == Port;
  }

  /** Two backends added, one connection served (the cursor is now 1), then
      the list set to the single address `x:1`: the cursor is still 1, out
      of range for a list of one. */
  method CursorEscapesAfterSet(a: string, b: string)
    returns (size: nat, cursor: nat, inBounds: bool)
    requires a != "" && b != ""
    ensures size == 1 && cursor == 1 && !inBounds
  {
    var reg := new Registry();
    var added := reg.AddHandler(a);
    added := reg.AddHandler(b);
    var served := reg.NextBackend();
    SingleAddressParses();
    var replaced := reg.SetBackends("x:1");
    size, cursor := |reg.backends|, reg.currentBackend;
    inBounds := reg.CursorInBounds();
  }

  /** The same address added twice, one connection served (the cursor is
      now 1), the address removed (the list is empty, which the cursor
      check allows) and another address added: the cursor is still 1, out
      of range for a list of one. */
  method CursorEscapesAfterAdd(a: string, b: string)
    returns (size: nat, cursor: nat, inBounds: bool)
    requires a != "" && b != ""
    ensures size == 1 && cursor == 1 && !inBounds
  {
    var reg := new Registry();
    var added := reg.AddHandler(a);
    added := reg.AddHandler(a);
    var served := reg.NextBackend();
    assert [a, a][1..] == [a] && [a][1..] == [];
    assert Without([a], a) == [];
    var removed := reg.RemoveHandler(a);
    added := reg.AddHandler(b);
    size, cursor := |reg.backends|, reg.currentBackend;
    inBounds := reg.CursorInBounds();
  }
}
