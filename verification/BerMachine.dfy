/** OCTET_STRING_decode_ber (src/msg/OCTET_STRING.c:166-510) as a transition system: one step is one
    turn of its expectation loop, one copy of contents octets, or one change of phase. */
module BerMachine {
  import opened Octets
  import opened Options
  import opened BerTlv

  datatype Variant = Bits | Chars

  /** What the decoder reads of a type descriptor with one outermost tag. */
  datatype Descriptor = Descriptor(variant: Variant, tag: int, allTags: seq<int>)

  // ---------------------------------------------------------------- the growing buffer

  /** `st->buf[..st->size]`, the allocation recorded in `ctx->context`, and `st->bits_unused`. */
  datatype Sink = Sink(buf: seq<Octet>, alloc: nat, bitsUnused: Octet)

  const UINT_LIMIT := 0x1_0000_0000
  const INT_LIMIT := 0x8000_0000
  const MAX_SIZE := 0x4000_0000

  /** `(int)n < 0` for a size_t n. */
  predicate NegativeAsInt(n: nat) {
    n % UINT_LIMIT >= INT_LIMIT
  }

  /** `do { ns = ns ? ns << 1 : 16; } while(ns <= es);` */
  function Doubled(ns: nat, es: nat): (r: nat)
    requires ns <= es
    ensures r > es
    decreases es - ns
  {
    var next := if ns == 0 then 16 else 2 * ns;
    if next <= es then Doubled(next, es) else next
  }

  /** The APPEND macro. */
  function Append(k: Sink, bytes: seq<Octet>): Option<Sink> {
    var es := |k.buf| + |bytes|;
    if NegativeAsInt(es) then None
    else
      var ns := if k.alloc <= es then Doubled(k.alloc, es) else k.alloc;
      if k.alloc <= es && NegativeAsInt(ns) then None
      else Some(k.(buf := (k.buf + bytes)[..es % UINT_LIMIT], alloc := ns))
  }

  // ---------------------------------------------------------------- states and steps

  datatype Phase = Start | Expect | Contents | Primitive | Finished

  /** A stack element that is in use; its `cont_level` is its position. */
  datatype Frame = Frame(left: int, got: int, wantNulls: bool, chopped: bool)

  datatype State = State(phase: Phase, left: int, stack: seq<Frame>, sink: Sink)

  datatype Outcome = More | Fail | Done

  datatype StepResult = Next(s: State, used: nat) | Stop(outcome: Outcome, s: State)

  const FRESH := State(Start, 0, [], Sink([], 0, 0))

  function Top(s: State): Frame
    requires s.stack != []
  {
    s.stack[|s.stack| - 1]
  }

  predicate Wf(s: State) {
    && (forall f <- s.stack :: f.left >= -1)
    && (s.phase.Start? ==> s.stack == [])
    && (s.phase.Contents? ==> s.stack != [] && Top(s).left >= 0)
    && (s.phase.Primitive? ==> s.left >= 0)
  }

  /** The part of the input that the innermost frame lets the tag and length readers see. */
  function Window(s: State, input: seq<Octet>): seq<Octet>
    requires Wf(s)
  {
    if s.stack == [] || Top(s).left == -1 || Top(s).left >= |input| then input
    else assert Top(s) in s.stack; input[..Top(s).left]
  }

  function WithTop(s: State, f: Frame): State
    requires s.stack != []
  {
    s.(stack := s.stack[..|s.stack| - 1] + [f])
  }

  function Charge(f: Frame, n: int): Frame {
    f.(left := if f.left == -1 then -1 else f.left - n, got := f.got + n)
  }

  /** The tag that an element inside `depth` open frames must carry. */
  function Expected(d: Descriptor, depth: nat, tag: int): int {
    if depth == 0 || d.allTags == [] then tag
    else if depth - 1 < |d.allTags| then d.allTags[depth - 1]
    else d.allTags[|d.allTags| - 1]
  }

  /** Steps that consume nothing go down this rank. */
  function Rank(s: State): nat {
    match s.phase
    case Start => 1
    case Expect => 2 * |s.stack|
    case Contents => 2 * |s.stack| + 1
    case Primitive => 1
    case Finished => 0
  }

  predicate Advances(s: State, input: seq<Octet>, r: StepResult) {
    Wf(r.s) && (r.Next? ==> r.used <= |input| && (r.used == 0 ==> Rank(r.s) < Rank(s)))
  }

  /** Phase 0: ber_check_tags for a single tag (src/msg/ber_decoder.c:139-282). */
  function StartStep(d: Descriptor, s: State, input: seq<Octet>): (r: StepResult)
    requires Wf(s) && s.phase.Start?
    ensures Advances(s, input, r)
  {
    match FetchTag(input)
    case Bad => Stop(Fail, s)
    case Starved => Stop(More, s)
    case Got(tl, tag) =>
      if tag != d.tag then Stop(Fail, s)
      else
        match FetchLength(IsConstructed(input[0]), input[tl..])
        case Bad => Stop(Fail, s)
        case Starved => Stop(More, s)
        case Got(ll, len) =>
          if len + tl + ll >= SSIZE_LIMIT then Stop(Fail, s)
          else if IsConstructed(input[0]) then
            Next(s.(phase := Expect, stack := [], sink := s.sink.(alloc := 0)), 0)
          else
            Next(s.(phase := Primitive, left := len, sink := s.sink.(alloc := 0)), tl + ll)
  }

  /** A frame that is used up is charged to the one around it. */
  function PopStep(s: State): (r: StepResult)
    requires Wf(s) && s.phase.Expect? && s.stack != []
    ensures Advances(s, [], r)
  {
    var outer := s.(stack := s.stack[..|s.stack| - 1]);
    if outer.stack == [] then Next(outer.(phase := Finished), 0)
    else if Top(outer).left != -1 && Top(outer).left < Top(s).got then Stop(Fail, s)
    else Next(WithTop(outer, Charge(Top(outer), Top(s).got)), 0)
  }

  function EndOfContents(f: Frame): Frame {
    f.(left := 0, got := f.got + 2, wantNulls := false)
  }

  /** A new expectation of `len` octets after a header of `tlvl` octets. */
  function PushStep(d: Descriptor, s: State, tag: int, constructed: bool, tlvl: nat, len: int): (r: StepResult)
    requires Wf(s) && s.phase.Expect? && tlvl > 0 && len >= INDEFINITE && (len == INDEFINITE ==> constructed)
    ensures Wf(r.s) && (r.Next? ==> r.used == tlvl)
  {
    if tag != Expected(d, |s.stack|, tag) then Stop(Fail, s)
    else if len + tlvl >= SSIZE_LIMIT then Stop(Fail, s)
    else
      var bounded := s.stack != [] && Top(s).left != -1;
      if bounded && Top(s).left < tlvl + (if len == INDEFINITE then 0 else len) then Stop(Fail, s)
      else
        var left := if bounded && len == INDEFINITE then Top(s).left - tlvl else len;
        Next(s.(phase := if constructed then Expect else Contents,
                stack := s.stack + [Frame(left, tlvl, len == INDEFINITE, false)]), tlvl)
  }

  /** Phase 1: one turn of the loop that fills the stack with expectations. */
  function ExpectStep(d: Descriptor, s: State, input: seq<Octet>): (r: StepResult)
    requires Wf(s) && s.phase.Expect?
    ensures Advances(s, input, r)
  {
    if s.stack != [] && Top(s).left <= 0 && !Top(s).wantNulls then PopStep(s)
    else
      var window := Window(s, input);
      match FetchTag(window)
      case Bad => Stop(Fail, s)
      case Starved => Stop(More, s)
      case Got(tl, tag) =>
        match FetchLength(IsConstructed(input[0]), window[tl..])
        case Bad => Stop(Fail, s)
        case Starved => Stop(More, s)
        case Got(ll, len) =>
          if s.stack != [] && Top(s).wantNulls && input[0] == 0 && input[1] == 0 then
            Next(WithTop(s, EndOfContents(Top(s))), 2)
          else PushStep(d, s, tag, IsConstructed(input[0]), tl + ll, len)
  }

  /** Store contents octets; the first one of a BIT STRING element counts the unused bits. */
  function Store(d: Descriptor, k: Sink, chopped: bool, bytes: seq<Octet>): Option<Sink> {
    if d.variant.Bits? && !chopped && bytes != [] then Append(k.(bitsUnused := bytes[0]), bytes[1..])
    else Append(k, bytes)
  }

  /** The innermost frame took in n contents octets that left the buffer as `k`. */
  function Consumed(d: Descriptor, s: State, n: nat, k: Sink): State
    requires s.stack != []
  {
    WithTop(s, Charge(Top(s), n).(chopped := Top(s).chopped || d.variant.Bits?)).(sink := k)
  }

  /** Phase 2: the contents octets of a primitive element inside a constructed one. */
  function ContentsStep(d: Descriptor, s: State, input: seq<Octet>): (r: StepResult)
    requires Wf(s) && s.phase.Contents?
    ensures Advances(s, input, r)
  {
    var f := Top(s);
    var len := if |input| < f.left then |input| else f.left;
    if f.left == 0 then Next(s.(phase := Expect), 0)
    else if len == 0 then Stop(More, s)
    else
      match Store(d, s.sink, f.chopped, input[..len])
      case None => Stop(Fail, s)
      case Some(k) =>
        Next(Consumed(d, s, len, k), len)
  }

  /** Phase 3: the contents octets of a primitive outermost element. */
  function PrimitiveStep(d: Descriptor, s: State, input: seq<Octet>): (r: StepResult)
    requires Wf(s) && s.phase.Primitive?
    ensures Advances(s, input, r)
  {
    var len := if |input| < s.left then |input| else s.left;
    if |input| < s.left && len == 0 then Stop(More, s)
    else
      match Store(d, s.sink, s.sink.alloc != 0, input[..len])
      case None => Stop(Fail, s)
      case Some(k) =>
        Next(s.(phase := if |input| < s.left then Primitive else Finished, left := s.left - len, sink := k), len)
  }

  /** `b & (0xff << n)`. */
  function Masked(b: Octet, n: Octet): Octet {
    if n >= 8 then 0
    else var unit := [1, 2, 4, 8, 16, 32, 64, 128][n]; b / unit * unit
  }

  /** Zero the unused bits of the last octet of a BIT STRING. */
  function Finalized(d: Descriptor, k: Sink): Sink {
    if d.variant.Bits? && k.buf != [] then
      k.(buf := k.buf[|k.buf| - 1 := Masked(k.buf[|k.buf| - 1], k.bitsUnused)])
    else k
  }

  function Step(d: Descriptor, s: State, input: seq<Octet>): (r: StepResult)
    requires Wf(s)
    ensures Advances(s, input, r)
  {
    match s.phase
    case Start => StartStep(d, s, input)
    case Expect => ExpectStep(d, s, input)
    case Contents => ContentsStep(d, s, input)
    case Primitive => PrimitiveStep(d, s, input)
    case Finished => Stop(Done, s.(sink := Finalized(d, s.sink)))
  }

  // ---------------------------------------------------------------- one call of the decoder

  /** The returned code, the returned `consumed`, and the state left behind in the structure. */
  datatype Result = Result(outcome: Outcome, used: nat, s: State)

  function Later(n: nat, r: Result): Result {
    r.(used := n + r.used)
  }

  function Run(d: Descriptor, s: State, input: seq<Octet>): (r: Result)
    requires Wf(s)
    ensures r.used <= |input| && Wf(r.s)
    decreases |input|, Rank(s)
  {
    match Step(d, s, input)
    case Stop(outcome, s') => Result(outcome, 0, s')
    case Next(s', n) => Later(n, Run(d, s', input[n..]))
  }
}
