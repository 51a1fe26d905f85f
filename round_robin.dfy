/** The `Backends` registry of backends.go: a list of `host:port` strings
    and a cursor, cycled through in round-robin order. Selection advances
    the cursor first and then reads, so it stays in range whatever the
    cursor was before. */
module RoundRobin {
  import opened Results
  import opened Seqs
  import opened Strings
  import opened Arith

  /** The cursor after one selection from a list of `n` backends. */
  function Advance(cursor: nat, n: nat): (c: nat)
    requires n > 0
    ensures c < n
  {
    (cursor + 1) % n
  }

  /** The backends returned by `k` successive selections from `s`, starting
      with the cursor at `cursor`: each selection advances, then reads. */
  function Picks(s: seq<string>, cursor: nat, k: nat): (r: seq<string>)
    requires |s| > 0
    ensures |r| == k
    decreases k
  {
    if k == 0 then [] else
      var c := Advance(cursor, |s|);
      [s[c]] + Picks(s, c, k - 1)
  }

  /** The cursor after `i` selections from a list of `n` backends. */
  function Steps(cursor: nat, i: nat, n: nat): (c: nat)
    requires n > 0
    ensures i > 0 ==> c < n
    decreases i
  {
    if i == 0 then cursor else Advance(Steps(cursor, i - 1, n), n)
  }

  /** Each selection moves the cursor one place on, modulo the length. */
  lemma {:induction false} StepsMod(cursor: nat, i: nat, n: nat)
    requires n > 0 && i > 0
    ensures Steps(cursor, i, n) == (cursor + i) % n
    decreases i
  {
    if i > 1 {
      StepsMod(cursor, i - 1, n);
      StepMod(cursor + i - 1, n);
    }
  }

  /** One selection, then the rest from the advanced cursor. */
  lemma PicksStep(s: seq<string>, cursor: nat, k: nat)
    requires |s| > 0 && k > 0
    ensures Picks(s, cursor, k) == [s[Advance(cursor, |s|)]] + Picks(s, Advance(cursor, |s|), k - 1)
  {
  }

  /** Round robin: the `j`-th selection (counting from 0) returns the
      element `cursor + j + 1` places on, wrapping around. */
  lemma {:induction false} PicksRoundRobin(s: seq<string>, cursor: nat, k: nat, j: nat)
    requires |s| > 0 && j < k
    ensures Picks(s, cursor, k)[j] == s[(cursor + j + 1) % |s|]
    decreases j
  {
    var c := Advance(cursor, |s|);
    if j > 0 {
      PicksRoundRobin(s, c, k - 1, j - 1);
      ModShift(cursor, j, |s|);
    }
  }

  /** The proxy's list of backends and its rotation cursor. */
  class Backends {
    var backends: seq<string>
    var current: nat

    /** The zero value `&Backends{}`: no backends, cursor at 0. */
    constructor ()
      ensures backends == [] && current == 0
    {
      backends := [];
      current := 0;
    }

    /** Replaces the whole list and resets the cursor, whatever it was. */
    method Set(list: seq<string>)
      modifies this
      ensures backends == list && current == 0
    {
      backends := list;
      current := 0;
    }

    /** Selects the next backend: advance the cursor modulo the length, then
        read there. An empty list is an error and changes nothing. */
    method Next() returns (r: Result<string>)
      modifies this
      ensures backends == old(backends)
      ensures old(backends) == [] ==> r == Err("empty backends") && current == old(current)
      ensures old(backends) != [] ==>
                current == Advance(old(current), |backends|) &&
                current < |backends| && r == Ok(backends[current])
    {
      if |backends| == 0 {
        return Err("empty backends");
      }
      current := (current + 1) % |backends|;
      r := Ok(backends[current]);
    }

    /** Appends one backend; the cursor is not touched. */
    method Add(backend: string)
      modifies this
      ensures backends == old(backends) + [backend]
      ensures current == old(current)
    {
      backends := backends + [backend];
    }

    /** Deletes every occurrence of `backend` in place, shifting the rest
        down, and returns how many were deleted. */
    method Remove(backend: string) returns (count: nat)
      modifies this
      ensures backends == Without(old(backends), backend)
      ensures count == Count(old(backends), backend)
      ensures |backends| == |old(backends)| - count
      ensures backend !in old(backends) ==> count == 0 && backends == old(backends)
      ensures current == old(current)
    {
      var i := 0;
      count := 0;
      while i < |backends|
        invariant i <= |backends|
        invariant backend !in backends[..i]
        invariant Without(backends, backend) == Without(old(backends), backend)
        invariant count + |backends| == |old(backends)|
        invariant current == old(current)
        decreases |backends| - i
      {
        if backends[i] == backend {
          WithoutRemoveAt(backends, i, backend);
          count := count + 1;
          backends := backends[..i] + backends[i + 1..];
        } else {
          assert backends[..i + 1] == backends[..i] + [backends[i]];
          i := i + 1;
        }
      }
      assert backends[..i] == backends;
      WithoutAbsent(backends, backend);
      WithoutAbsent(old(backends), backend);
      WithoutLength(old(backends), backend);
      CountZero(old(backends), backend);
    }

    /** The backends joined with commas, in order. */
    method String() returns (s: string)
      ensures s == Join(backends, ",")
    {
      s := Join(backends, ",");
    }
  }

  /** `k` successive selections return `Picks` of the list from the
      cursor the object had, and leave the cursor `k` places on. */
  method NextMany(bs: Backends, k: nat) returns (picked: seq<string>)
    requires bs.backends != []
    modifies bs
    ensures bs.backends == old(bs.backends)
    ensures picked == Picks(old(bs.backends), old(bs.current), k)
    ensures k == 0 ==> bs.current == old(bs.current)
    ensures k > 0 ==> bs.current == (old(bs.current) + k) % |bs.backends|
  {
    ghost var list, start := bs.backends, bs.current;
    ghost var n := |list|;
    picked := [];
    for i := 0 to k
      invariant bs.backends == list
      invariant picked + Picks(list, bs.current, k - i) == Picks(list, start, k)
      invariant bs.current == Steps(start, i, n)
    {
      PicksStep(list, bs.current, k - i);
      var r := bs.Next();
      picked := picked + [r.value];
    }
    if k > 0 {
      StepsMod(start, k, n);
    }
  }

  /** After `Set([a, b])`, three selections give b, a, b; once the list is
      set to empty, selection fails. */
  method NextScenario(a: string, b: string)
    returns (first: Result<string>, second: Result<string>, third: Result<string>, onEmpty: Result<string>)
    ensures first == Ok(b) && second == Ok(a) && third == Ok(b)
    ensures onEmpty.Err?
  {
    var bs := new Backends();
    bs.Set([a, b]);
    first := bs.Next();
    second := bs.Next();
    third := bs.Next();
    bs.Set([]);
    onEmpty := bs.Next();
  }

  /** Removing from an empty list deletes nothing; removing `a` from
      `[a, b, a]` deletes two and leaves `[b]`. */
  method RemoveScenario(a: string, b: string) returns (fromEmpty: nat, removed: nat, left: seq<string>)
    requires a != b
    ensures fromEmpty == 0 && removed == 2 && left == [b]
  {
    var bs := new Backends();
    fromEmpty := bs.Remove(a);
    bs.Set([a, b, a]);
    removed := bs.Remove(a);
    left := bs.backends;
    assert [a, b, a][1..] == [b, a] && [b, a][1..] == [a] && [a][1..] == [];
    assert Without([a], a) == [];
    assert Without([b, a], a) == [b];
  }

  /** An empty list renders as the empty string, `[a, b]` as `a,b`; adding
      `c` after `[a, b]` renders as `a,b,c`. */
  method StringScenario(a: string, b: string, c: string) returns (empty: string, two: string, three: string)
    ensures empty == "" && two == a + "," + b && three == a + "," + b + "," + c
  {
    var bs := new Backends();
    empty := bs.String();
    bs.Set([a, b]);
    two := bs.String();
    bs.Add(c);
    three := bs.String();
    assert [a, b] + [c] == [a, b, c];
    assert [a, b, c][1..] == [b, c] && [b, c][1..] == [c];
    assert Join([b, c], ",") == b + "," + c;
    assert Join([a, b, c], ",") == a + "," + (b + "," + c);
  }
}
