/** The revision counter of a replica: its decimal text in a reused block, and the goroutine that
    persists an increment for every write while writers wait for the acknowledgement.
 */
module RevisionCounter {

  import opened Layers
  import opened Integers

  const BLOCK_SIZE: nat := 4096

  /** Two's complement wrap-around of an increment. */
  function Wrap(n: int): (r: int64)
    ensures n > MAX_INT64 ==> r < n - 1
    ensures MIN_INT64 <= n <= MAX_INT64 ==> r == n
  {
    (n - MIN_INT64) % U64 + MIN_INT64
  }

  lemma WrapNext(n: int)
    ensures Wrap(Wrap(n) + 1) == Wrap(n + 1)
  {
  }

  // ----- the text of a counter -----

  const ZERO: byte := 48
  const PLUS: byte := 43
  const MINUS: byte := 45

  predicate IsDigit(b: byte) {
    ZERO <= b <= ZERO + 9
  }

  function Digits(n: nat): (s: seq<byte>)
    ensures |s| > 0 && forall b | b in s :: IsDigit(b)
  {
    if n < 10 then [ZERO + n] else Digits(n / 10) + [ZERO + n % 10]
  }

  function FormatInt(n: int): seq<byte> {
    if n < 0 then [MINUS] + Digits(-n) else Digits(n)
  }

  function DigitsValue(s: seq<byte>): (n: nat)
    requires forall b | b in s :: IsDigit(b)
  {
    if s == [] then 0 else assert IsDigit(s[|s| - 1]); 10 * DigitsValue(s[..|s| - 1]) + (s[|s| - 1] - ZERO)
  }

  datatype Parsed = Counter(value: int64) | Unparsable

  /** A decimal int64 with an optional sign; anything else is refused. */
  function ParseInt(s: seq<byte>): Parsed {
    var signed := s != [] && (s[0] == PLUS || s[0] == MINUS);
    var digits := if signed then s[1..] else s;
    if digits == [] || exists b | b in digits :: !IsDigit(b) then Unparsable
    else
      var n: int := if signed && s[0] == MINUS then -(DigitsValue(digits) as int) else DigitsValue(digits);
      if MIN_INT64 <= n <= MAX_INT64 then Counter(n) else Unparsable
  }

  /** Removes zero bytes from both ends. */
  function Trim(s: seq<byte>): (r: seq<byte>) {
    if s == [] then []
    else if s[0] == 0 then Trim(s[1..])
    else if s[|s| - 1] == 0 then Trim(s[..|s| - 1])
    else s
  }

  /** What the file reads as: its first block, filled up with zeros. */
  function FirstBlock(file: seq<byte>): (b: seq<byte>)
    ensures |b| == BLOCK_SIZE
  {
    if |file| >= BLOCK_SIZE then file[..BLOCK_SIZE] else file + seq<byte>(BLOCK_SIZE - |file|, _ => 0)
  }

  /** What a block written at the start of the file leaves standing. */
  function Tail(file: seq<byte>): seq<byte> {
    if |file| < BLOCK_SIZE then [] else file[BLOCK_SIZE..]
  }

  function ReadCounter(file: seq<byte>): Parsed {
    ParseInt(Trim(FirstBlock(file)))
  }

  lemma {:induction false} DigitsRoundTrip(n: nat)
    ensures DigitsValue(Digits(n)) == n
  {
    if n >= 10 {
      DigitsRoundTrip(n / 10);
      assert Digits(n)[..|Digits(n)| - 1] == Digits(n / 10);
    } else {
      assert DigitsValue([]) == 0;
      assert Digits(n)[..0] == [];
    }
  }

  lemma ParseFormatted(n: int64)
    ensures ParseInt(FormatInt(n)) == Counter(n)
  {
    hide Digits, DigitsValue;
    var m: int := n;
    if m < 0 {
      var digits := Digits(-m);
      DigitsRoundTrip(-m);
      assert ([MINUS] + digits)[1..] == digits;
    } else {
      var digits := Digits(m);
      DigitsRoundTrip(m);
      assert IsDigit(digits[0]);
    }
  }

  function Pow10(k: nat): (p: nat)
    ensures p > 0
  {
    if k == 0 then 1 else 10 * Pow10(k - 1)
  }

  /** The text is decimal: the character at distance `i` from the end is the digit of that place, and no place is
      left out. */
  lemma {:induction false} DigitsAt(n: nat, i: nat)
    ensures i < |Digits(n)| ==> Digits(n)[|Digits(n)| - 1 - i] == 48 + n / Pow10(i) % 10
    ensures i >= |Digits(n)| ==> n / Pow10(i) == 0
  {
    if i == 0 {
      assert Pow10(0) == 1;
    } else {
      assert Pow10(i) == 10 * Pow10(i - 1);
      DivTwice(n, 10, Pow10(i - 1));
      var q := n / Pow10(i);
      assert n / 10 / Pow10(i - 1) == q;
      hide Pow10;
      if n < 10 {
        DivOf(0, Pow10(i - 1), 0, 0);
      } else {
        DigitsAt(n / 10, i - 1);
      }
    }
  }

  lemma {:induction false} DigitsLength(n: nat, k: nat)
    requires k > 0 && n < Pow10(k)
    ensures |Digits(n)| <= k
  {
    if n >= 10 {
      assert k > 1 by { assert Pow10(1) == 10; }
      DigitsLength(n / 10, k - 1);
    }
  }

  /** Twenty bytes hold every int64. */
  lemma FormatFits(n: int64)
    ensures 1 <= |FormatInt(n)| <= 20
  {
    assert Pow10(1) == 10 && Pow10(2) == 100 && Pow10(3) == 1000 && Pow10(4) == 10000 && Pow10(5) == 100000;
    assert Pow10(6) == 1000000 && Pow10(7) == 10000000 && Pow10(8) == 100000000 && Pow10(9) == 1000000000;
    assert Pow10(10) == 10000000000 && Pow10(11) == 100000000000 && Pow10(12) == 1000000000000;
    assert Pow10(13) == 10000000000000 && Pow10(14) == 100000000000000 && Pow10(15) == 1000000000000000;
    assert Pow10(16) == 10000000000000000 && Pow10(17) == 100000000000000000;
    assert Pow10(18) == 1000000000000000000 && Pow10(19) == 10000000000000000000;
    var m: int := n;
    DigitsLength(if m < 0 then -m else m, 19);
  }

  /** The block a counter is stored as. */
  function Block(n: int64): (b: seq<byte>)
    ensures |b| == BLOCK_SIZE
  {
    FormatFits(n);
    FormatInt(n) + seq<byte>(BLOCK_SIZE - |FormatInt(n)|, _ => 0)
  }

  lemma {:induction false} TrimPadded(s: seq<byte>, zeros: seq<byte>)
    requires s != [] && forall b | b in s :: b != 0
    requires forall b | b in zeros :: b == 0
    ensures Trim(s + zeros) == s
    decreases |zeros|
  {
    var padded := s + zeros;
    assert padded[0] == s[0] && s[0] in s && s[|s| - 1] in s;
    if zeros == [] {
      assert padded == s;
    } else {
      var fewer := zeros[..|zeros| - 1];
      assert padded[..|padded| - 1] == s + fewer;
      assert padded[|padded| - 1] == zeros[|zeros| - 1] && zeros[|zeros| - 1] in zeros;
      assert forall b | b in fewer :: b in zeros;
      TrimPadded(s, fewer);
    }
  }

  /** Every int64 stored in a block is read back exactly. */
  lemma BlockRoundTrip(n: int64)
    ensures ReadCounter(Block(n)) == Counter(n)
  {
    FormatFits(n);
    var zeros := seq<byte>(BLOCK_SIZE - |FormatInt(n)|, _ => 0);
    TrimPadded(FormatInt(n), zeros);
    assert FirstBlock(Block(n)) == Block(n);
    ParseFormatted(n);
  }

  lemma FileRoundTrip(n: int64, tail: seq<byte>)
    ensures ReadCounter(Block(n) + tail) == Counter(n)
  {
    BlockRoundTrip(n);
    assert FirstBlock(Block(n) + tail) == FirstBlock(Block(n));
  }

  /** The counter file, the block buffer shared by all writes, and the cached value. */
  class RevisionFile {
    const buffer: array<byte>
    var file: seq<byte>
    var cache: int64

    /** Only the first 20 bytes of the buffer are ever used. */
    ghost predicate Valid()
      reads this, buffer
    {
      buffer.Length == BLOCK_SIZE && forall i | 20 <= i < BLOCK_SIZE :: buffer[i] == 0
    }

    constructor (buffer: array<byte>, file: seq<byte>)
      requires buffer.Length == BLOCK_SIZE && forall i | 20 <= i < BLOCK_SIZE :: buffer[i] == 0
      ensures this.buffer == buffer && this.file == file && Valid()
    {
      this.buffer, this.file, cache := buffer, file, 0;
    }

    /** Whatever the buffer held before, the file holds the new counter and nothing else. */
    method WriteCounter(counter: int64)
      requires Valid()
      modifies this`file, buffer
      ensures Valid() && file == Block(counter) + Tail(old(file))
      ensures ReadCounter(file) == Counter(counter)
    {
      hide FormatInt, ReadCounter, Tail;
      var bytes := FormatInt(counter);
      FormatFits(counter);
      for i := 0 to |bytes|
        invariant file == old(file) && forall k | 0 <= k < i :: buffer[k] == bytes[k]
        invariant forall k | 20 <= k < BLOCK_SIZE :: buffer[k] == 0
      {
        buffer[i] := bytes[i];
      }
      for i := |bytes| to 20
        invariant file == old(file) && forall k | 0 <= k < |bytes| :: buffer[k] == bytes[k]
        invariant forall k | |bytes| <= k < i || 20 <= k < BLOCK_SIZE :: buffer[k] == 0
      {
        buffer[i] := 0;
      }
      assert buffer[..] == Block(counter);
      FileRoundTrip(counter, Tail(file));
      file := buffer[..] + Tail(file);
    }

    /** Opening: a file that does not exist yet starts at 0; an unreadable counter is an error. */
    method Init(present: bool) returns (ok: bool)
      requires Valid()
      modifies this, buffer
      ensures Valid()
      ensures ok <==> !present || ReadCounter(old(file)).Counter?
      ensures ok ==> ReadCounter(file) == Counter(cache) && (if present then file == old(file) else cache == 0)
    {
      if !present {
        file := [];
        WriteCounter(0);
      }
      var counter := ReadCounter(file);
      if counter.Unparsable? {
        return false;
      }
      cache := counter.value;
      return true;
    }

    method SetRevisionCounter(counter: int64)
      requires Valid()
      modifies this, buffer
      ensures Valid() && ReadCounter(file) == Counter(counter) && cache == counter
      ensures file == Block(counter) + Tail(old(file))
    {
      WriteCounter(counter);
      cache := counter;
    }

    /** The goroutine takes a request. */
    method Persist()
      requires Valid()
      modifies this`file, buffer
      ensures Valid() && file == Block(Wrap(cache + 1)) + Tail(old(file))
    {
      WriteCounter(Wrap(cache + 1));
    }

    /** The goroutine has passed on the acknowledgement. */
    method Raise()
      requires Valid()
      modifies this`cache
      ensures Valid() && cache == Wrap(old(cache) + 1)
    {
      cache := Wrap(cache + 1);
    }
  }

  // ----- writers and the counter goroutine -----

  /** Where the goroutine stands: ready, the file written but not acknowledged, or acknowledged and about
      to raise the cached value. */
  datatype Phase = Ready | Written | Acked

  /** `requests` are queued, `waiting` writers have written their data and wait for an acknowledgement;
      `taken` counts the requests served and `acked` the writers released since the counter was `start`. */
  datatype State = State(file: seq<byte>, cache: int64, phase: Phase, requests: nat, waiting: nat,
                         start: int64, taken: nat, acked: nat)

  datatype Step =
    | Submit        // a writer queues its request
    | DataWritten   // a writer's data is written, it starts waiting
    | DataFailed    // a writer's data is not written, it does not wait
    | Persist       // the goroutine takes a request and writes the file
    | Acknowledge   // a waiting writer receives the acknowledgement
    | Raise         // the goroutine raises the cached value

  predicate Enabled(s: State, step: Step) {
    match step
    case Persist => s.phase == Ready && s.requests > 0
    case Acknowledge => s.phase == Written && s.waiting > 0
    case Raise => s.phase == Acked
    case _ => true
  }

  function Apply(s: State, step: Step): State
    requires Enabled(s, step)
  {
    match step
    case Submit => s.(requests := s.requests + 1)
    case DataWritten => s.(waiting := s.waiting + 1)
    case DataFailed => s
    case Persist =>
      s.(requests := s.requests - 1, file := Block(Wrap(s.cache + 1)) + Tail(s.file), phase := Written,
         taken := s.taken + 1)
    case Acknowledge => s.(waiting := s.waiting - 1, phase := Acked, acked := s.acked + 1)
    case Raise => s.(cache := Wrap(s.cache + 1), phase := Ready)
  }

  /** The file and the cached value in terms of the requests served. */
  ghost predicate Inv(s: State) {
    && ReadCounter(s.file) == Counter(Wrap(s.start + s.taken))
    && s.acked + (if s.phase == Written then 1 else 0) <= s.taken
    && (s.phase == Ready ==> s.cache == Wrap(s.start + s.taken))
    && (s.phase != Ready ==> s.taken > 0 && s.cache == Wrap(s.start + s.taken - 1))
    && s.taken <= s.acked + (if s.phase == Written then 1 else 0)
  }

  lemma StepKeeps(s: State, step: Step)
    requires Inv(s) && Enabled(s, step)
    ensures Inv(Apply(s, step))
  {
    hide Wrap, ReadCounter, Block;
    if step == Persist {
      FileRoundTrip(Wrap(s.cache + 1), Tail(s.file));
      WrapNext(s.start + s.taken);
    } else if step == Raise {
      WrapNext(s.start + s.taken - 1);
    }
  }

  predicate IsRun(s: State, steps: seq<Step>)
    decreases |steps|
  {
    steps == [] || (Enabled(s, steps[0]) && IsRun(Apply(s, steps[0]), steps[1..]))
  }

  function After(s: State, steps: seq<Step>): State
    requires IsRun(s, steps)
    decreases |steps|
  {
    if steps == [] then s else After(Apply(s, steps[0]), steps[1..])
  }

  lemma {:induction false} RunKeeps(s: State, steps: seq<Step>)
    requires Inv(s) && IsRun(s, steps)
    ensures Inv(After(s, steps))
    decreases |steps|
  {
    if steps != [] {
      StepKeeps(s, steps[0]);
      RunKeeps(Apply(s, steps[0]), steps[1..]);
    }
  }

  function Opened(file: seq<byte>, counter: int64): State {
    State(file, counter, Ready, 0, 0, counter, 0, 0)
  }

  /** The persisted counter against the cached one and the acknowledged writes. */
  predicate Ahead(s: State, persisted: int64) {
    && (persisted == s.cache || persisted == s.cache + 1)
    && persisted >= s.start + s.acked
  }

  /** In every interleaving the file holds a readable counter; it is the cached value or one more and no
      less than the start plus the acknowledged writes if and only if the requests served have not taken
      it past the largest int64. */
  lemma PersistedCounterIff(file: seq<byte>, steps: seq<Step>)
    requires ReadCounter(file).Counter? && IsRun(Opened(file, ReadCounter(file).value), steps)
    ensures var s := After(Opened(file, ReadCounter(file).value), steps);
            && ReadCounter(s.file).Counter?
            && (Ahead(s, ReadCounter(s.file).value) <==> s.start + s.taken <= MAX_INT64)
  {
    var s := After(Opened(file, ReadCounter(file).value), steps);
    RunKeeps(Opened(file, ReadCounter(file).value), steps);
    assert Inv(s);
  }

  /** Setting the counter while the goroutine may be anywhere. */
  function Set(s: State, counter: int64): State {
    s.(file := Block(counter) + Tail(s.file), cache := counter, start := counter, taken := 0, acked := 0)
  }

  /** Setting the counter is safe, whatever happens later, if and only if the goroutine is ready: otherwise
      a writer yet to be acknowledged leaves the file one behind the cached value. */
  lemma SetIsSafeIff(s: State, counter: int64)
    requires Inv(s) && counter < MAX_INT64
    ensures (forall steps | IsRun(Set(s, counter), steps) ::
               var s' := After(Set(s, counter), steps);
               s'.start + s'.taken <= MAX_INT64 ==>
                   ReadCounter(s'.file).Counter? && Ahead(s', ReadCounter(s'.file).value))
       <==> s.phase == Ready
  {
    FileRoundTrip(counter, Tail(s.file));
    var s0 := Set(s, counter);
    if s.phase == Ready {
      forall steps | IsRun(s0, steps) && After(s0, steps).start + After(s0, steps).taken <= MAX_INT64
        ensures var s' := After(s0, steps);
                ReadCounter(s'.file).Counter? && Ahead(s', ReadCounter(s'.file).value)
      {
        RunKeeps(s0, steps);
      }
    } else {
      LateRaise(s0);
    }
  }

  /** The run that leaves the file behind. */
  lemma LateRaise(s: State)
    requires s.phase != Ready && s.start == s.cache < MAX_INT64 && s.taken == 0
    requires ReadCounter(s.file) == Counter(s.cache)
    ensures exists steps :: IsRun(s, steps) && After(s, steps).start + After(s, steps).taken <= MAX_INT64
                            && ReadCounter(After(s, steps).file) == Counter(s.cache)
                            && After(s, steps).cache == s.cache + 1
  {
    if s.phase == Acked {
      var steps := [Raise];
      assert steps[1..] == [];
      assert IsRun(s, steps) && After(s, steps) == Apply(s, Raise);
    } else {
      var steps := [DataWritten, Acknowledge, Raise];
      assert steps[1..] == [Acknowledge, Raise] && steps[1..][1..] == [Raise] && steps[1..][1..][1..] == [];
      var s1 := Apply(s, DataWritten);
      var s2 := Apply(s1, Acknowledge);
      assert IsRun(s2, [Raise]) && After(s2, [Raise]) == Apply(s2, Raise);
      assert IsRun(s1, [Acknowledge, Raise]) && After(s1, [Acknowledge, Raise]) == Apply(s2, Raise);
      assert IsRun(s, steps) && After(s, steps) == Apply(s2, Raise);
    }
  }

  /** A single failed data write leaves the goroutine unready with nothing pending. */
  lemma FailedWriteStrands(file: seq<byte>)
    requires ReadCounter(file).Counter?
    ensures exists steps :: IsRun(Opened(file, ReadCounter(file).value), steps)
              && var s := After(Opened(file, ReadCounter(file).value), steps);
                 s.requests == 0 && s.waiting == 0 && s.phase == Written
  {
    var s := Opened(file, ReadCounter(file).value);
    var steps := [Submit, DataFailed, Persist];
    assert steps[1..] == [DataFailed, Persist] && steps[1..][1..] == [Persist] && steps[1..][1..][1..] == [];
    var s1 := Apply(s, Submit);
    var s2 := Apply(s1, DataFailed);
    assert IsRun(s2, [Persist]) && After(s2, [Persist]) == Apply(s2, Persist);
    assert IsRun(s1, [DataFailed, Persist]) && After(s1, [DataFailed, Persist]) == Apply(s2, Persist);
    assert IsRun(s, steps) && After(s, steps) == Apply(s2, Persist);
  }
}
