/** Replica modes: the controller's replica list, the replicator's derived reader and writer tables,
    the fan-out of reads and writes, and how errors change modes.
 */
module Controllers {

  datatype Mode = RW | WO | ERR

  type Addr = string
  type Modes = map<Addr, Mode>

  datatype ReplicaEntry = ReplicaEntry(address: Addr, mode: Mode)

  // ----- modes as values -----

  /** A mode change; a replica in ERR ignores it. */
  function SetMode(modes: Modes, a: Addr, m: Mode): Modes {
    if a in modes && modes[a] != ERR then modes[a := m] else modes
  }

  /** The modes once every named replica is in ERR. */
  function WithErrors(modes: Modes, failed: set<Addr>): Modes {
    map a | a in modes :: if a in failed then ERR else modes[a]
  }

  function WithMode(modes: Modes, m: Mode): set<Addr> {
    set a | a in modes && modes[a] == m
  }

  function Writers(modes: Modes): set<Addr> {
    set a | a in modes && modes[a] != ERR
  }

  ghost predicate AtMostOneWO(modes: Modes) {
    forall a, b | a in WithMode(modes, WO) && b in WithMode(modes, WO) :: a == b
  }

  // ----- the replicator -----

  ghost predicate Distinct(s: seq<Addr>) {
    forall i, j | 0 <= i < j < |s| :: s[i] != s[j]
  }

  function Elements(s: seq<Addr>): set<Addr> {
    set a | a in s
  }

  /** `index` maps each position of `s` to the address there. */
  ghost predicate Indexes(index: map<nat, Addr>, s: seq<Addr>) {
    forall i: nat :: (i in index <==> i < |s|) && (i < |s| ==> index[i] == s[i])
  }

  lemma EmptyTables(modes: Modes)
    ensures Table([], map[], WithMode(modes, RW), modes.Keys) && Table([], map[], Writers(modes), modes.Keys)
  {
  }

  lemma FullTable(s: seq<Addr>, index: map<nat, Addr>, chosen: set<Addr>)
    requires Table(s, index, chosen, {})
    ensures Distinct(s) && Elements(s) == chosen && Indexes(index, s)
  {
  }

  /** A table lists the chosen backends, those still to visit left out. */
  ghost predicate Table(s: seq<Addr>, index: map<nat, Addr>, chosen: set<Addr>, todo: set<Addr>) {
    Distinct(s) && Elements(s) == chosen - todo && Indexes(index, s)
  }

  lemma TableStep(s: seq<Addr>, index: map<nat, Addr>, chosen: set<Addr>, todo: set<Addr>, a: Addr)
    requires Table(s, index, chosen, todo) && a in todo
    ensures a !in chosen ==> Table(s, index, chosen, todo - {a})
    ensures a in chosen ==> Table(s + [a], index[|s| := a], chosen, todo - {a})
  {
    hide Distinct, Indexes, Elements;
    if a in chosen {
      Push(s, index, a);
      assert chosen - (todo - {a}) == chosen - todo + {a};
    } else {
      assert chosen - (todo - {a}) == chosen - todo;
    }
  }

  lemma Push(s: seq<Addr>, index: map<nat, Addr>, a: Addr)
    requires Distinct(s) && Indexes(index, s) && a !in Elements(s)
    ensures Distinct(s + [a]) && Elements(s + [a]) == Elements(s) + {a} && Indexes(index[|s| := a], s + [a])
  {
    forall i | 0 <= i < |s| ensures s[i] != a {
      assert s[i] in Elements(s);
    }
  }

  /** Result of a request to the backends: refused, or served with the replicas that failed it. */
  datatype IOResult = NoBackend | Done(served: bool, failed: set<Addr>)

  class Replicator {
    var backendsAvailable: bool
    var backends: Modes
    var readers: seq<Addr>
    var writers: seq<Addr>
    var readerIndex: map<nat, Addr>
    var writerIndex: map<nat, Addr>
    var next: nat

    /** Readers are exactly the RW backends, writers exactly those not in ERR, and the index maps name
        the backend at each position. */
    ghost predicate Valid()
      reads this
    {
      && Distinct(readers) && Elements(readers) == WithMode(backends, RW) && Indexes(readerIndex, readers)
      && Distinct(writers) && Elements(writers) == Writers(backends) && Indexes(writerIndex, writers)
      && (backendsAvailable <==> readers != [])
    }

    constructor ()
      ensures Valid() && backends == map[]
    {
      backendsAvailable, backends, readers, writers := false, map[], [], [];
      readerIndex, writerIndex, next := map[], map[], 0;
    }

    /** Rebuilds readers and writers from the backends, visited in any order. */
    method BuildReaderWriters()
      modifies this`backendsAvailable, this`readers, this`writers, this`readerIndex, this`writerIndex
      ensures Valid()
    {
      hide Table;
      backendsAvailable, readerIndex, writerIndex := false, map[], map[];
      var rs: seq<Addr>, ws: seq<Addr> := [], [];
      var todo := backends.Keys;
      EmptyTables(backends);
      while todo != {}
        invariant todo <= backends.Keys && !backendsAvailable
        invariant Table(rs, readerIndex, WithMode(backends, RW), todo)
        invariant Table(ws, writerIndex, Writers(backends), todo)
        decreases |todo|
      {
        var a :| a in todo;
        TableStep(rs, readerIndex, WithMode(backends, RW), todo, a);
        TableStep(ws, writerIndex, Writers(backends), todo, a);
        if backends[a] != ERR {
          writerIndex := writerIndex[|ws| := a];
          ws := ws + [a];
        }
        if backends[a] == RW {
          readerIndex := readerIndex[|rs| := a];
          rs := rs + [a];
        }
        todo := todo - {a};
      }
      readers, writers := rs, ws;
      if |readers| > 0 {
        backendsAvailable := true;
      }
      FullTable(readers, readerIndex, WithMode(backends, RW));
      FullTable(writers, writerIndex, Writers(backends));
    }

    method AddBackend(a: Addr, mode: Mode)
      requires Valid()
      modifies this
      ensures Valid()
      ensures backends == if a in old(backends) then old(backends) else old(backends)[a := mode]
    {
      if a in backends {
        return;
      }
      backends := backends[a := mode];
      BuildReaderWriters();
    }

    method RemoveBackend(a: Addr)
      requires Valid()
      modifies this
      ensures Valid() && backends == old(backends) - {a}
    {
      if a !in backends {
        return;
      }
      backends := backends - {a};
      BuildReaderWriters();
    }

    method ChangeMode(a: Addr, mode: Mode)
      requires Valid()
      modifies this
      ensures Valid()
      ensures backends == if a in old(backends) then old(backends)[a := mode] else old(backends)
    {
      if a !in backends {
        return;
      }
      backends := backends[a := mode];
      BuildReaderWriters();
    }

    /** The reader that the next read tries first does not fail. */
    predicate FirstWorks(broken: set<Addr>)
      reads this
    {
      readers != [] && readers[NextIndex(next, |readers|)] !in broken
    }

    /** Tries the readers round robin until one succeeds.  `broken` are the replicas whose reads fail.
        The error names exactly the readers tried before the one that served, all of them if none did. */
    method ReadAt(broken: set<Addr>) returns (r: IOResult, from: Addr, ghost tries: nat)
      requires Valid()
      modifies this`next
      ensures Valid()
      ensures r.NoBackend? <==> readers == []
      ensures r.NoBackend? <==> WithMode(backends, RW) == {}
      ensures r.Done? ==>
                && next == NextIndex(old(next), |readers|) && tries <= |readers|
                && r.failed == Tried(readers, next, tries) && r.failed <= WithMode(backends, RW) * broken
                && (r.served <==> tries < |readers|)
                && (r.served ==>
                      from == readers[Ring(next, tries, |readers|)] && from in WithMode(backends, RW) - broken)
      ensures r.Done? ==> (r.served <==> WithMode(backends, RW) - broken != {})
      ensures r.Done? && !r.served ==> r.failed == WithMode(backends, RW)
      ensures r.Done? ==> (r.failed == {} <==> old(FirstWorks(broken)))
    {
      hide Tried, Distinct;
      from, tries := "", 0;
      if !backendsAvailable {
        assert readers == [] ==> Elements(readers) == {};
        return NoBackend, from, tries;
      }
      assert readers[0] in Elements(readers);
      NoneTried(readers, NextIndex(next, |readers|));
      var readersLen := |readers|;
      next := NextIndex(next, readersLen);
      var index := next;
      ghost var start := next;
      var failed: set<Addr> := {};
      var i := 0;
      while i < readersLen
        invariant 0 <= i <= readersLen && next == start < readersLen && index == Ring(start, i, readersLen)
        invariant failed == Tried(readers, start, i) && failed <= broken
        invariant i > 0 ==> readers[start] in broken
      {
        if readers[index] !in broken {
          Served(readers, start, i, broken);
          return Done(true, failed), readers[index], i;
        }
        failed := failed + {readerIndex[index]};
        TriedMore(readers, start, i);
        RingStep(start, i, readersLen);
        index := (index + 1) % readersLen;
        i := i + 1;
      }
      AllTried(readers, start);
      return Done(false, failed), from, i;
    }

    /** Writes to all writers at once and attributes the errors by position. */
    method WriteAt(broken: set<Addr>, len: nat) returns (r: IOResult, n: nat)
      requires Valid()
      ensures r.NoBackend? <==> WithMode(backends, RW) == {}
      ensures r.Done? ==> r.failed == Writers(backends) * broken
      ensures r.Done? ==> (r.served <==> Writers(backends) - broken != {})
      ensures n == if r.Done? && r.served then len else 0
    {
      if !backendsAvailable {
        assert readers == [] ==> Elements(readers) == {};
        return NoBackend, 0;
      }
      assert readers[0] in Elements(readers);
      var ws := writers;
      var errs := seq(|ws|, i requires 0 <= i < |ws| => ws[i] in broken);
      var anyErr;
      n, anyErr := Collect(errs, len);
      var failed: set<Addr> := {};
      if anyErr {
        var i := 0;
        while i < |errs|
          invariant 0 <= i <= |errs|
          invariant failed <= Elements(ws) * broken
          invariant forall k | 0 <= k < i && ws[k] in broken :: ws[k] in failed
        {
          if errs[i] {
            assert ws[i] in Elements(ws);
            failed := failed + {writerIndex[i]};
          }
          i := i + 1;
        }
      }
      forall a | a in Elements(ws) ensures exists k :: 0 <= k < |ws| && errs[k] == (a in broken) && ws[k] == a {
        var k :| 0 <= k < |ws| && ws[k] == a;
        assert errs[k] == (a in broken);
      }
      forall k | 0 <= k < |errs| && !errs[k] ensures ws[k] in Elements(ws) - broken {
      }
      r := Done(false in errs, failed);
    }
  }

  /** The result of a fan-out: the full length if some writer succeeded, an error if some failed. */
  method Collect(errs: seq<bool>, len: nat) returns (n: nat, anyErr: bool)
    ensures anyErr <==> true in errs
    ensures n == if false in errs then len else 0
  {
    n, anyErr := 0, false;
    var i := 0;
    while i < |errs|
      invariant 0 <= i <= |errs|
      invariant anyErr <==> true in errs[..i]
      invariant n == if false in errs[..i] then len else 0
    {
      assert errs[..i + 1] == errs[..i] + [errs[i]];
      if errs[i] {
        anyErr := true;
      } else {
        n := len;
      }
      i := i + 1;
    }
    assert errs[..i] == errs;
  }

  /** The `k`-th position from `start` in a ring of `n`. */
  function Ring(start: nat, k: nat, n: nat): (r: nat)
    requires start < n && k <= n
    ensures r < n
  {
    if start + k < n then start + k else start + k - n
  }

  /** The position of the reader after the one at `next`. */
  function NextIndex(next: nat, n: nat): (i: nat)
    requires n > 0
    ensures i < n
  {
    (next + 1) % n
  }

  /** The position at which the `k`-th read from now on starts. */
  function StartOf(next: nat, n: nat, k: nat): nat
    requires n > 0
  {
    if k == 0 then next else NextIndex(StartOf(next, n, k - 1), n)
  }

  /** Reads go round: among any `n` reads in a row each of the `n` readers is tried first once. */
  lemma RoundRobin(next: nat, n: nat, j: nat) returns (k: nat)
    requires next < n && j < n
    ensures 1 <= k <= n && StartOf(next, n, k) == j
    ensures forall i | 1 <= i <= n && StartOf(next, n, i) == j :: i == k
  {
    k := if j > next then j - next else j + n - next;
    forall i | 1 <= i <= n ensures StartOf(next, n, i) == Ring(next, i, n) {
      Starts(next, n, i);
    }
  }

  lemma {:induction false} Starts(next: nat, n: nat, k: nat)
    requires next < n && k <= n
    ensures StartOf(next, n, k) == Ring(next, k, n)
  {
    if k > 0 {
      Starts(next, n, k - 1);
      RingStep(next, k - 1, n);
    }
  }

  /** The first `k` readers from position `start` on, round the ring. */
  ghost function Tried(readers: seq<Addr>, start: nat, k: nat): set<Addr>
    requires start < |readers| && k <= |readers|
  {
    set j | 0 <= j < k :: readers[Ring(start, j, |readers|)]
  }

  lemma NoneTried(readers: seq<Addr>, start: nat)
    requires start < |readers|
    ensures Tried(readers, start, 0) == {}
  {
  }

  lemma TriedMore(readers: seq<Addr>, start: nat, k: nat)
    requires start < |readers| && k < |readers|
    ensures Tried(readers, start, k + 1) == Tried(readers, start, k) + {readers[Ring(start, k, |readers|)]}
  {
  }

  lemma Served(readers: seq<Addr>, start: nat, k: nat, broken: set<Addr>)
    requires start < |readers| && k < |readers| && readers[Ring(start, k, |readers|)] !in broken
    requires Tried(readers, start, k) <= broken && (k > 0 ==> readers[start] in broken)
    ensures Elements(readers) - broken != {} && Tried(readers, start, k) <= Elements(readers)
    ensures Tried(readers, start, k) == {} <==> readers[start] !in broken
  {
    assert readers[Ring(start, k, |readers|)] in Elements(readers) - broken;
    if k > 0 {
      assert readers[Ring(start, 0, |readers|)] in Tried(readers, start, k);
    }
  }

  lemma AllTried(readers: seq<Addr>, start: nat)
    requires start < |readers|
    ensures Tried(readers, start, |readers|) == Elements(readers)
  {
    forall a | a in Elements(readers) ensures a in Tried(readers, start, |readers|) {
      var j :| 0 <= j < |readers| && readers[j] == a;
      var k := RingCovers(start, j, |readers|);
    }
  }

  lemma RingStep(start: nat, i: nat, n: nat)
    requires start < n && i < n
    ensures (Ring(start, i, n) + 1) % n == Ring(start, i + 1, n)
  {
    Wrap(Ring(start, i, n) + 1, n);
  }

  lemma Wrap(x: nat, n: nat)
    requires 0 < n && x < 2 * n
    ensures x % n == if x < n then x else x - n
  {
    Quotient(x, if x < n then 0 else 1, if x < n then x else x - n, n);
  }

  /** Quotient and remainder are unique. */
  lemma Quotient(x: nat, q: nat, r: nat, n: nat)
    requires 0 < n && r < n && x == q * n + r
    ensures x / n == q && x % n == r
  {
    var d := x / n - q;
    assert d * n == r - x % n;
    assert d > 0 ==> d * n >= n;
    assert d < 0 ==> d * n + n <= 0;
  }

  lemma RingCovers(start: nat, j: nat, n: nat) returns (k: nat)
    requires start < n && j < n
    ensures k < n && Ring(start, k, n) == j
  {
    k := if start <= j then j - start else j + n - start;
  }

  // ----- the controller -----

  /** The replica list and the mode map say the same, with one entry per address. */
  ghost predicate Listed(replicas: seq<ReplicaEntry>, modes: Modes) {
    && (forall i, j | 0 <= i < j < |replicas| :: replicas[i].address != replicas[j].address)
    && (forall i | 0 <= i < |replicas| ::
          replicas[i].address in modes && modes[replicas[i].address] == replicas[i].mode)
    && (forall a | a in modes :: Has(replicas, a))
  }

  ghost predicate Has(replicas: seq<ReplicaEntry>, a: Addr) {
    exists i :: 0 <= i < |replicas| && replicas[i].address == a
  }

  lemma ListedPush(replicas: seq<ReplicaEntry>, modes: Modes, a: Addr, m: Mode)
    requires Listed(replicas, modes) && a !in modes
    ensures Listed(replicas + [ReplicaEntry(a, m)], modes[a := m])
  {
    var rs, modes' := replicas + [ReplicaEntry(a, m)], modes[a := m];
    forall b | b in modes' ensures Has(rs, b) {
      if b == a {
        assert rs[|replicas|].address == a;
      } else {
        var i :| 0 <= i < |replicas| && replicas[i].address == b;
        assert rs[i].address == b;
      }
    }
  }

  lemma HasDropped(replicas: seq<ReplicaEntry>, i: nat, b: Addr)
    requires i < |replicas| && Has(replicas, b) && replicas[i].address != b
    ensures Has(replicas[..i] + replicas[i + 1..], b)
  {
    var j :| 0 <= j < |replicas| && replicas[j].address == b;
    var rs := replicas[..i] + replicas[i + 1..];
    assert rs[if j < i then j else j - 1].address == b;
  }

  lemma ListedDrop(replicas: seq<ReplicaEntry>, modes: Modes, i: nat)
    requires Listed(replicas, modes) && i < |replicas|
    ensures Listed(replicas[..i] + replicas[i + 1..], modes - {replicas[i].address})
  {
    var rs, a := replicas[..i] + replicas[i + 1..], replicas[i].address;
    forall j | 0 <= j < |rs| ensures rs[j] == replicas[if j < i then j else j + 1] && rs[j].address != a {
    }
    hide Has;
    forall b | b in modes - {a} ensures Has(rs, b) {
      HasDropped(replicas, i, b);
    }
  }

  lemma ListedSet(replicas: seq<ReplicaEntry>, modes: Modes, i: nat, m: Mode)
    requires Listed(replicas, modes) && i < |replicas|
    ensures Listed(replicas[i := ReplicaEntry(replicas[i].address, m)], modes[replicas[i].address := m])
  {
    var a := replicas[i].address;
    var rs, modes' := replicas[i := ReplicaEntry(a, m)], modes[a := m];
    forall j | 0 <= j < |rs| ensures rs[j].address == replicas[j].address && (j != i ==> rs[j].address != a) {
    }
    forall b | b in modes' ensures Has(rs, b) {
      assert Has(replicas, b);
      var j :| 0 <= j < |replicas| && replicas[j].address == b;
      assert rs[j].address == b;
    }
  }

  lemma FirstWO(modes: Modes, a: Addr, m: Mode)
    requires WithMode(modes, WO) == {}
    ensures AtMostOneWO(modes[a := m])
  {
    var modes' := modes[a := m];
    assert WithMode(modes', WO) <= WithMode(modes, WO) + {a};
  }

  /** Turning replicas to ERR or removing them creates no WO replica. */
  lemma FewerWO(modes: Modes, modes': Modes)
    requires AtMostOneWO(modes) && WithMode(modes', WO) <= WithMode(modes, WO)
    ensures AtMostOneWO(modes')
  {
  }

  /** A write that reaches the replicas: it is inside the volume, there is an RW replica, and it is direct or the first
      reader tried works. */
  predicate Sent(modes: Modes, firstWorks: bool, off: int, len: nat, size: nat) {
    && 0 <= off && off + len <= size && WithMode(modes, RW) != {}
    && (Direct(modes, off, len) || firstWorks)
  }

  /** A write inside the volume whose first reader fails is refused if and only if it is unaligned and a replica is
      being rebuilt; then it is, whatever the other RW replicas do. */
  lemma WriteRefusedByRead(modes: Modes, off: nat, len: nat, size: nat)
    requires off + len <= size && WithMode(modes, RW) != {}
    ensures !Sent(modes, false, off, len, size) <==>
            WithMode(modes, WO) != {} && len > 0 && !(off % 4096 == 0 && len % 4096 == 0)
    ensures Sent(modes, true, off, len, size)
  {
  }

  /** An input: of two RW replicas the one that is tried first fails the read, the other works, and a third replica is
      being rebuilt.  A write of one byte is not sent. */
  lemma WorkingReplicaUnused()
    ensures var modes := map["a" := RW, "b" := RW, "w" := WO];
            && !Sent(modes, false, 1, 1, 8192) && Sent(modes, true, 1, 1, 8192) && Sent(modes, false, 0, 4096, 8192)
            && WithMode(modes, RW) - {"a"} == {"b"}
  {
    var modes := map["a" := RW, "b" := RW, "w" := WO];
    assert "w" in WithMode(modes, WO) && "a" in WithMode(modes, RW);
  }

  /** The replicas that stay RW after errors. */
  lemma Survivors(modes: Modes, failed: set<Addr>)
    ensures WithMode(WithErrors(modes, failed), RW) == WithMode(modes, RW) - failed <= Writers(modes) - failed
    ensures WithErrors(modes, Writers(modes) * failed) == WithErrors(modes, failed)
    ensures Writers(modes) * failed == {} ==>
              WithErrors(modes, failed) == modes && WithMode(modes, RW) - failed == WithMode(modes, RW)
  {
    var w := Writers(modes) * failed;
    assert WithErrors(modes, w) == WithErrors(modes, failed);
    if w == {} {
      forall a | a in modes && a in failed ensures modes[a] == ERR {
        assert a !in w;
      }
    }
  }

  /** A write that is sent as it is: no replica is being rebuilt, or it covers whole sectors. */
  predicate Direct(modes: Modes, off: int, len: nat) {
    WithMode(modes, WO) == {} || len == 0 || (off % 4096 == 0 && len % 4096 == 0)
  }

  class Controller {
    const backend: Replicator
    const size: nat
    var replicas: seq<ReplicaEntry>
    var isExpanding: bool

    /** Controller and replicator agree on the modes, and at most one replica is write-only. */
    ghost predicate Valid()
      reads this, backend
    {
      Listed(replicas, backend.backends) && backend.Valid() && AtMostOneWO(backend.backends)
    }

    constructor (size: nat)
      ensures Valid() && fresh(backend) && backend.backends == map[] && !isExpanding && this.size == size
    {
      this.size := size;
      backend := new Replicator();
      replicas, isExpanding := [], false;
    }

    method HasReplica(a: Addr) returns (has: bool)
      requires Valid()
      ensures has <==> a in backend.backends
    {
      var i := 0;
      while i < |replicas|
        invariant 0 <= i <= |replicas|
        invariant forall j | 0 <= j < i :: replicas[j].address != a
      {
        if replicas[i].address == a {
          return true;
        }
        i := i + 1;
      }
      return false;
    }

    method HasWOReplica() returns (has: bool)
      requires Valid()
      ensures has <==> WithMode(backend.backends, WO) != {}
    {
      var i := 0;
      while i < |replicas|
        invariant 0 <= i <= |replicas|
        invariant forall j | 0 <= j < i :: replicas[j].mode != WO
      {
        if replicas[i].mode == WO {
          assert replicas[i].address in WithMode(backend.backends, WO);
          return true;
        }
        i := i + 1;
      }
      return false;
    }

    method CanAdd(a: Addr) returns (ok: bool)
      requires Valid()
      ensures ok <==> a !in backend.backends && WithMode(backend.backends, WO) == {} && !isExpanding
    {
      var present := HasReplica(a);
      if present {
        return false;
      }
      var rebuilding := HasWOReplica();
      if rebuilding {
        return false;
      }
      return !isExpanding;
    }

    /** Registers a replica, if required after a snapshot on all replicas in use and on the new one.
        `canSnapshot` is the answer of the snapshot check and `failing` are the replicas, the new one among
        them, whose snapshot fails; a failure refuses the addition but puts no replica into ERR. */
    method AddReplica(a: Addr, mode: Mode, snapshot: bool, canSnapshot: bool, failing: set<Addr>) returns (ok: bool)
      requires Valid()
      modifies this`replicas, backend
      ensures Valid()
      ensures ok <==>
                && a !in old(backend.backends) && WithMode(old(backend.backends), WO) == {} && !isExpanding
                && (snapshot && mode != ERR ==>
                      && (old(backend.backends) == map[] || canSnapshot)
                      && (Writers(old(backend.backends)) + {a}) * failing == {})
      ensures backend.backends == if ok then old(backend.backends)[a := mode] else old(backend.backends)
      ensures ok ==> Stepped(old(backend.backends), Add(a, mode), backend.backends)
    {
      ok := CanAdd(a);
      if !ok {
        return;
      }
      if snapshot && mode != ERR {
        if backend.backends != map[] && !canSnapshot {
          return false;
        }
        assert (Writers(backend.backends) + {a}) * failing == Writers(backend.backends) * failing + {a} * failing;
        if Writers(backend.backends) * failing != {} {
          return false;
        }
        if a in failing {
          assert a in {a} * failing;
          return false;
        }
      }
      ListedPush(replicas, backend.backends, a, mode);
      FirstWO(backend.backends, a, mode);
      hide Listed;
      replicas := replicas + [ReplicaEntry(a, mode)];
      backend.AddBackend(a, mode);
    }

    /** Removes a replica; the last one of a volume that is up stays. */
    method RemoveReplica(a: Addr, frontendUp: bool) returns (refused: bool)
      requires Valid()
      modifies this`replicas, backend
      ensures Valid()
      ensures refused <==> a in old(backend.backends) && |old(replicas)| == 1 && frontendUp
      ensures backend.backends == if refused then old(backend.backends) else old(backend.backends) - {a}
      ensures !refused ==> Stepped(old(backend.backends), Remove(a), backend.backends)
    {
      var i := 0;
      while i < |replicas|
        invariant 0 <= i <= |replicas| && replicas == old(replicas) && Valid()
        invariant backend.backends == old(backend.backends)
        invariant forall j | 0 <= j < i :: replicas[j].address != a
      {
        if replicas[i].address == a {
          if |replicas| == 1 && frontendUp {
            return true;
          }
          ListedDrop(replicas, backend.backends, i);
          FewerWO(backend.backends, backend.backends - {a});
          hide Listed;
          replicas := replicas[..i] + replicas[i + 1..];
          backend.RemoveBackend(a);
          return false;
        }
        i := i + 1;
      }
      assert a !in backend.backends;
      return false;
    }

    /** Sets the mode of a replica on request; WO is refused. */
    method SetReplicaMode(a: Addr, mode: Mode) returns (ok: bool)
      requires Valid()
      modifies this`replicas, backend
      ensures Valid() && |replicas| == old(|replicas|)
      ensures ok <==> mode != WO
      ensures backend.backends == if ok && a in old(backend.backends) && old(backend.backends)[a] != ERR
                                  then old(backend.backends)[a := mode] else old(backend.backends)
      ensures ok ==> Stepped(old(backend.backends), Set(a, mode), backend.backends)
    {
      if mode == WO {
        return false;
      }
      SetReplicaModeNoLock(a, mode);
      return true;
    }

    /** Sets the mode of a replica, except that one in ERR stays in ERR. */
    method SetReplicaModeNoLock(a: Addr, mode: Mode)
      requires Valid() && mode != WO
      modifies this`replicas, backend
      ensures Valid() && |replicas| == old(|replicas|)
      ensures backend.backends == SetMode(old(backend.backends), a, mode)
    {
      var i := 0;
      while i < |replicas|
        invariant 0 <= i <= |replicas| && replicas == old(replicas) && Valid()
        invariant backend.backends == old(backend.backends)
        invariant forall j | 0 <= j < i :: replicas[j].address != a
      {
        var r := replicas[i];
        if r.address == a {
          if r.mode != ERR {
            ListedSet(replicas, backend.backends, i, mode);
            FewerWO(backend.backends, backend.backends[a := mode]);
            hide Listed;
            replicas := replicas[i := ReplicaEntry(a, mode)];
            backend.ChangeMode(a, mode);
          }
          return;
        }
        i := i + 1;
      }
      assert a !in backend.backends;
    }

    /** Puts the replicas named by an error into ERR, except those that only reported an existing
        snapshot, and drops the error if a good replica is left and no snapshot existed. */
    method HandleError(errors: set<Addr>, existing: set<Addr>) returns (err: bool)
      requires Valid() && existing <= errors
      modifies this`replicas, backend
      ensures Valid()
      ensures backend.backends == WithErrors(old(backend.backends), errors - existing)
      ensures Stepped(old(backend.backends), Fail(errors - existing), backend.backends)
      ensures err <==> errors == {} || existing != {} || WithMode(backend.backends, RW) == {}
    {
      hide Listed;
      if errors == {} {
        assert WithErrors(backend.backends, {}) == backend.backends;
        return true;
      }
      var todo := errors;
      while todo != {}
        invariant todo <= errors && Valid()
        invariant backend.backends == WithErrors(old(backend.backends), errors - existing - todo)
        decreases |todo|
      {
        var a :| a in todo;
        if a !in existing {
          SetReplicaModeNoLock(a, ERR);
        }
        todo := todo - {a};
      }
      assert errors - existing - {} == errors - existing;
      if existing != {} {
        return true;
      }
      var good := HasRW();
      err := !good;
    }

    /** A write through to the error handling.  `badReads` and `badWrites` are the replicas that fail a read
        or a write.  A write that needs no read first, or whose read is served at once, is acknowledged
        exactly when some RW replica took it, and exactly the replicas that failed it go to ERR.  Any other
        write is refused, although an RW replica may have served the read, and no replica changes its mode. */
    method WriteAt(off: int, len: nat, badReads: set<Addr>, badWrites: set<Addr>) returns (acked: bool, n: nat)
      requires Valid()
      modifies this`replicas, backend
      ensures Valid()
      ensures var modes := old(backend.backends);
              var sent := Sent(modes, old(backend.FirstWorks(badReads)), off, len, size);
              && (acked <==> sent && WithMode(modes, RW) - badWrites != {})
              && n == (if sent && Writers(modes) - badWrites != {} then len else 0)
              && backend.backends == if sent then WithErrors(modes, badWrites) else modes
    {
      if off < 0 || off + len > size {
        return false, 0;
      }
      var rebuilding := HasWOReplica();
      if rebuilding {
        acked, n := WriteInWOMode(off, len, badReads, badWrites);
      } else {
        acked, n := Send(len, badWrites);
      }
    }

    method WriteInWOMode(off: nat, len: nat, badReads: set<Addr>, badWrites: set<Addr>) returns (acked: bool, n: nat)
      requires Valid() && WithMode(backend.backends, WO) != {}
      modifies this`replicas, backend
      ensures Valid()
      ensures var modes := old(backend.backends);
              var sent := Sent(modes, old(backend.FirstWorks(badReads)), off, len, off + len);
              && (acked <==> sent && WithMode(modes, RW) - badWrites != {})
              && n == (if sent && Writers(modes) - badWrites != {} then len else 0)
              && backend.backends == if sent then WithErrors(modes, badWrites) else modes
    {
      hide Listed, AtMostOneWO, WithErrors, WithMode, Writers, Distinct, Indexes, Elements, Tried;
      if len == 0 || (off % 4096 == 0 && len % 4096 == 0) {
        acked, n := Send(len, badWrites);
        return;
      }
      var start, end := WideRange(off, len);
      var read, _, _ := backend.ReadAt(badReads);
      if read.NoBackend? || read.failed != {} {
        // the error is wrapped, so that it no longer names replicas
        return false, 0;
      }
      var startCut := off % 4096;
      var wide;
      acked, wide := Send(end - start, badWrites);
      n := if wide < startCut then 0 else if wide - startCut < len then wide - startCut else len;
    }

    /** The whole sectors around a write. */
    method WideRange(off: nat, len: nat) returns (start: nat, end: nat)
      requires len > 0
      ensures start == off - off % 4096 && off + len <= end < off + len + 4096 && end % 4096 == 0
    {
      start := off / 4096 * 4096;
      end := if (off + len) % 4096 == 0 then off + len else ((off + len) / 4096 + 1) * 4096;
    }

    /** The fan-out of a write with its error handling. */
    method Send(len: nat, broken: set<Addr>) returns (acked: bool, n: nat)
      requires Valid()
      modifies this`replicas, backend
      ensures Valid()
      ensures acked <==> WithMode(old(backend.backends), RW) - broken != {}
      ensures var modes := old(backend.backends);
              n == if WithMode(modes, RW) != {} && Writers(modes) - broken != {} then len else 0
      ensures backend.backends == if WithMode(old(backend.backends), RW) == {} then old(backend.backends)
                                  else WithErrors(old(backend.backends), broken)
    {
      hide Listed, AtMostOneWO, WithErrors, WithMode, Writers, Distinct, Indexes, Elements;
      ghost var modes := backend.backends;
      var r;
      r, n := backend.WriteAt(broken, len);
      if r.NoBackend? {
        return false, n;
      }
      Survivors(modes, broken);
      if r.failed == {} {
        return true, n;
      }
      var err := HandleError(r.failed, {});
      assert r.failed - {} == r.failed;
      acked := !err;
    }

    /** A read through to the error handling.  It is answered exactly when some RW replica works, and exactly
        the readers tried before the one that served, or all of them, go to ERR. */
    method ReadAt(off: int, len: nat, broken: set<Addr>) returns (ok: bool, from: Addr, ghost tries: nat)
      requires Valid()
      modifies this`replicas, backend
      ensures Valid()
      ensures ok <==> 0 <= off && off + len <= size && WithMode(old(backend.backends), RW) - broken != {}
      ensures ok ==> from in WithMode(old(backend.backends), RW) - broken
      ensures var rs := old(backend.readers);
              if off < 0 || off + len > size || rs == [] then backend.backends == old(backend.backends)
              else
                var start := NextIndex(old(backend.next), |rs|);
                && tries <= |rs| && Tried(rs, start, tries) <= broken
                && backend.backends == WithErrors(old(backend.backends), Tried(rs, start, tries))
                && (ok <==> tries < |rs|) && (ok ==> from == rs[Ring(start, tries, |rs|)])
    {
      ghost var modes := backend.backends;
      from, tries := "", 0;
      if off < 0 || off + len > size {
        return false, from, tries;
      }
      hide Listed, AtMostOneWO, WithErrors, WithMode, Writers, Distinct, Indexes, Elements, Tried, NextIndex, Ring;
      var r;
      r, from, tries := backend.ReadAt(broken);
      if r.NoBackend? {
        return false, from, tries;
      }
      Survivors(modes, r.failed);
      if r.failed == {} {
        return r.served, from, tries;
      }
      var err := HandleError(r.failed, {});
      assert r.failed - {} == r.failed;
      ok := !err;
    }

    method HasRW() returns (has: bool)
      requires Valid()
      ensures has <==> WithMode(backend.backends, RW) != {}
    {
      var i := 0;
      while i < |replicas|
        invariant 0 <= i <= |replicas|
        invariant forall j | 0 <= j < i :: replicas[j].mode != RW
      {
        if replicas[i].mode == RW {
          assert replicas[i].address in WithMode(backend.backends, RW);
          return true;
        }
        i := i + 1;
      }
      return false;
    }

    /** Shutting the backend down forgets every replica. */
    method Reset()
      requires Valid()
      modifies this`replicas, backend
      ensures Valid() && backend.backends == map[]
    {
      replicas := [];
      backend.backends := map[];
      backend.BuildReaderWriters();
    }
  }

  // ----- runs of the mode machine -----

  datatype ModeStep = Add(a: Addr, m: Mode) | Remove(a: Addr) | Set(a: Addr, m: Mode) | Fail(failed: set<Addr>)

  /** The steps the controller allows: an addition needs no WO replica, a mode is never set to WO. */
  predicate Allowed(modes: Modes, step: ModeStep) {
    match step
    case Add(a, _) => a !in modes && WithMode(modes, WO) == {}
    case Remove(_) => true
    case Set(_, m) => m != WO
    case Fail(_) => true
  }

  function ApplyMode(modes: Modes, step: ModeStep): Modes {
    match step
    case Add(a, m) => modes[a := m]
    case Remove(a) => modes - {a}
    case Set(a, m) => SetMode(modes, a, m)
    case Fail(failed) => WithErrors(modes, failed)
  }

  /** The step is allowed and leads from `modes` to `modes'`. */
  predicate Stepped(modes: Modes, step: ModeStep, modes': Modes) {
    Allowed(modes, step) && modes' == ApplyMode(modes, step)
  }

  function RunModes(modes: Modes, steps: seq<ModeStep>): Modes {
    if steps == [] then modes else ApplyMode(RunModes(modes, steps[..|steps| - 1]), steps[|steps| - 1])
  }

  ghost predicate AllowedRun(modes: Modes, steps: seq<ModeStep>) {
    forall i | 0 <= i < |steps| :: Allowed(RunModes(modes, steps[..i]), steps[i])
  }

  /** In every state of every run there is at most one WO replica, and a replica that is in ERR stays
      in ERR until it is removed. */
  lemma {:induction false} ModeRuns(modes: Modes, steps: seq<ModeStep>, a: Addr)
    requires AtMostOneWO(modes) && AllowedRun(modes, steps)
    ensures AtMostOneWO(RunModes(modes, steps))
    ensures a in modes && modes[a] == ERR && Remove(a) !in steps ==>
              a in RunModes(modes, steps) && RunModes(modes, steps)[a] == ERR
  {
    if steps != [] {
      var init, step := steps[..|steps| - 1], steps[|steps| - 1];
      assert forall i | 0 <= i < |init| :: init[..i] == steps[..i];
      ModeRuns(modes, init, a);
      var m := RunModes(modes, init);
      assert Allowed(m, step) && step in steps;
      if step.Add? {
        FirstWO(m, step.a, step.m);
      } else {
        FewerWO(m, ApplyMode(m, step));
      }
    }
  }
}
