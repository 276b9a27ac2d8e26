// Tag specifications of peachmsg: `-c` compiles one into a pair of masks that the compositor
// applies to a client's tags; `-t` applies one directly.

module TagOps {
  import opened TagWords

  /** What one character of a specification does to the tag of its position. */
  function ApplyOne(tags: Word, op: char, i: nat): Word
    requires i < WIDTH
  {
    if op == '-' then And(tags, Not(Bit(i)))
    else if op == '+' then Or(tags, Bit(i))
    else if op == '^' then Xor(tags, Bit(i))
    else tags
  }

  /** Position by position: the first character acts on tag `start`, the next on the one after. */
  function Apply(tags: Word, ops: string, start: nat): Word
    requires start + |ops| <= WIDTH
  {
    if ops == "" then tags
    else ApplyOne(Apply(tags, ops[..|ops| - 1], start), ops[|ops| - 1], start + |ops| - 1)
  }

  predicate Digit(c: char) {
    '0' <= c <= '9'
  }

  /** The length of the leading number. */
  function Digits(spec: string): (n: nat)
    ensures n <= |spec|
  {
    if spec == "" || !Digit(spec[0]) then 0 else 1 + Digits(spec[1..])
  }

  function Number(digits: string): nat {
    if digits == "" then 0
    else 10 * Number(digits[..|digits| - 1]) + Value(digits[|digits| - 1])
  }

  function Value(c: char): nat {
    if Digit(c) then c as int - '0' as int else 0
  }

  function Start(spec: string): nat {
    Number(spec[..Digits(spec)])
  }

  function Ops(spec: string): string {
    spec[Digits(spec)..]
  }

  /** Every position that the specification touches is a bit of the word. */
  predicate Fits(spec: string) {
    if Ops(spec) == "" then Start(spec) < WIDTH else Start(spec) + |Ops(spec)| <= WIDTH
  }

  /** The meaning of a `-c` specification: a bare number selects that tag, otherwise position by position. */
  function Meaning(tags: Word, spec: string): Word
    requires Fits(spec)
  {
    if Ops(spec) == "" then Bit(Start(spec)) else Apply(tags, Ops(spec), Start(spec))
  }

  /** What the compositor does with a pair of masks. */
  function Masked(tags: Word, keep: Word, flip: Word): Word {
    Xor(And(tags, keep), flip)
  }

  /** The two masks after one more character. */
  function CompileOne(keep: Word, flip: Word, op: char, i: nat): (Word, Word)
    requires i < WIDTH
  {
    if op == '-' then (And(keep, Not(Bit(i))), flip)
    else if op == '+' then (And(keep, Not(Bit(i))), Or(flip, Bit(i)))
    else if op == '^' then (keep, Or(flip, Bit(i)))
    else (keep, flip)
  }

  /** Neither mask has touched a bit from `i` up. */
  ghost predicate Untouched(keep: Word, flip: Word, i: nat) {
    forall j: nat | i <= j < WIDTH :: j in keep && j !in flip
  }

  /** On a position that neither mask has touched, compiling commutes with applying. */
  lemma CompileOneMeans(tags: Word, keep: Word, flip: Word, op: char, i: nat)
    requires i < WIDTH && i in keep && i !in flip
    ensures var (k, f) := CompileOne(keep, flip, op, i);
            Masked(tags, k, f) == ApplyOne(Masked(tags, keep, flip), op, i)
  {
  }

  /** The pair of masks has the effect of the characters so far, on every tag word. */
  ghost predicate Compiled(keep: Word, flip: Word, ops: string, start: nat)
    requires start + |ops| <= WIDTH
  {
    forall tags: Word :: Masked(tags, keep, flip) == Apply(tags, ops, start)
  }

  /** One turn of the `-c` loop. */
  lemma CompileStep(keep: Word, flip: Word, ops: string, start: nat, op: char)
    requires start + |ops| < WIDTH
    requires Untouched(keep, flip, start + |ops|) && Compiled(keep, flip, ops, start)
    ensures var (k, f) := CompileOne(keep, flip, op, start + |ops|);
            Untouched(k, f, start + |ops| + 1) && Compiled(k, f, ops + [op], start)
  {
    var i := start + |ops|;
    var (k, f) := CompileOne(keep, flip, op, i);
    forall tags: Word ensures Masked(tags, k, f) == Apply(tags, ops + [op], start) {
      assert (ops + [op])[..|ops|] == ops;
      CompileOneMeans(tags, keep, flip, op, i);
      assert Masked(tags, keep, flip) == Apply(tags, ops, start);
    }
  }

  /** The pair of masks has the effect of the specification, on every tag word. */
  ghost predicate MeansSpec(keep: Word, flip: Word, spec: string)
    requires Fits(spec)
  {
    forall tags: Word :: Masked(tags, keep, flip) == Meaning(tags, spec)
  }

  /** The number loop at the front of a specification. */
  method ParseNumber(spec: string) returns (t: nat, i: nat)
    ensures t == Digits(spec) && i == Start(spec)
  {
    t, i := 0, 0;
    while t < |spec| && Digit(spec[t])
      invariant 0 <= t <= |spec| && Digits(spec) == t + Digits(spec[t..]) && i == Number(spec[..t])
    {
      assert spec[..t + 1][..t] == spec[..t];
      assert spec[t..][1..] == spec[t + 1..];
      i := Value(spec[t]) + i * 10;
      t := t + 1;
    }
  }

  /**
   * The `-c` loop of `peachwm_ipc_output_frame`. `ok` is false where it gives up because the last
   * position lies beyond the number of tags.
   */
  method Compile(spec: string, tagCount: nat) returns (ok: bool, keep: Word, flip: Word)
    requires Fits(spec)
    ensures ok <==> Start(spec) + |Ops(spec)| <= tagCount
    ensures MeansSpec(keep, flip, spec)
  {
    keep, flip := ONES, {};
    var t, i := ParseNumber(spec);
    ghost var start := i;
    if t == |spec| {
      keep := {};
      flip := Bit(i);
      ok := i <= tagCount;
      return;
    }
    ghost var ops := spec[t..];
    ghost var n := 0;
    assert Compiled(keep, flip, ops[..0], start);
    while t < |spec|
      invariant 0 <= n <= |ops| && t == |spec| - |ops| + n && ops == spec[|spec| - |ops|..] && i == start + n
      invariant Untouched(keep, flip, i) && Compiled(keep, flip, ops[..n], start)
    {
      var next := CompileOne(keep, flip, spec[t], i);
      CompileStep(keep, flip, ops[..n], start, spec[t]);
      assert ops[..n + 1] == ops[..n] + [spec[t]];
      keep, flip := next.0, next.1;
      t, i, n := t + 1, i + 1, n + 1;
    }
    assert ops[..n] == ops;
    forall tags: Word ensures Masked(tags, keep, flip) == Meaning(tags, spec) {
      assert Masked(tags, keep, flip) == Apply(tags, ops, start);
    }
    ok := i <= tagCount;
  }

  /** The `-t` loop on a tag set, after the number: the specification applied directly. */
  method ApplyInPlace(tags: Word, ops: string, start: nat) returns (mask: Word)
    requires start + |ops| <= WIDTH
    ensures mask == Apply(tags, ops, start)
  {
    mask := tags;
    var n := 0;
    while n < |ops|
      invariant 0 <= n <= |ops| && mask == Apply(tags, ops[..n], start)
    {
      assert ops[..n + 1][..n] == ops[..n];
      mask := ApplyOne(mask, ops[n], start + n);
      n := n + 1;
    }
    assert ops[..n] == ops;
  }

  /** A `-t` specification without its leading `!`. */
  function Unmarked(spec: string): string {
    if Marked(spec) then spec[1..] else spec
  }

  predicate Marked(spec: string) {
    spec != "" && spec[0] == '!'
  }

  /** Every position that a `-t` specification touches is a bit of the word. */
  predicate TagsetFits(spec: string) {
    var ops := Ops(Unmarked(spec));
    if ops == "" then Marked(spec) || Start(Unmarked(spec)) < WIDTH else Start(Unmarked(spec)) + |ops| <= WIDTH
  }

  /** The meaning of a `-t` specification: as for `-c`, but a bare number after `!` changes nothing. */
  function TagsetMeaning(tags: Word, spec: string): Word
    requires TagsetFits(spec)
  {
    if Marked(spec) && Ops(Unmarked(spec)) == "" then tags else Meaning(tags, Unmarked(spec))
  }

  /** The whole of `-t`: the mask to send and whether the other tag set is to be selected. */
  method CompileTagset(selected: Word, spec: string, tagCount: nat) returns (ok: bool, mask: Word, toggle: bool)
    requires TagsetFits(spec)
    ensures ok <==> Start(Unmarked(spec)) + |Ops(Unmarked(spec))| <= tagCount
    ensures mask == TagsetMeaning(selected, spec) && (toggle <==> !Marked(spec))
  {
    mask, toggle := selected, true;
    var rest := spec;
    if rest != "" && rest[0] == '!' {
      toggle := false;
      rest := rest[1..];
    }
    var t, i := ParseNumber(rest);
    if toggle && t == |rest| {
      mask := Bit(i);
    }
    if t < |rest| {
      mask := ApplyInPlace(mask, rest[t..], i);
    }
    ok := i + (|rest| - t) <= tagCount;
  }

  /** `ipc_output_handle_set_client_tags`: an empty result is refused. */
  function SetClientTags(tags: Word, keep: Word, flip: Word): Word {
    if Masked(tags, keep, flip) == {} then tags else Masked(tags, keep, flip)
  }

  /** From specification to client tags: the compiled pair has the effect of the direct application. */
  method SendClientTags(spec: string, tagCount: nat, tags: Word) returns (after: Word)
    requires Fits(spec)
    ensures after ==
            if Start(spec) + |Ops(spec)| <= tagCount && Meaning(tags, spec) != {} then Meaning(tags, spec) else tags
  {
    var ok, keep, flip := Compile(spec, tagCount);
    after := if ok then SetClientTags(tags, keep, flip) else tags;
    assert Masked(tags, keep, flip) == Meaning(tags, spec);
  }

  /** Whether a tag is set after the character at its position, given whether it was before. */
  predicate Decided(op: char, was: bool) {
    if op == '-' then false else if op == '+' then true else if op == '^' then !was else was
  }

  /** Bit by bit: position `start + n` is decided by character `n`, every other keeps its value. */
  lemma {:induction false} ApplyAt(tags: Word, ops: string, start: nat, i: nat)
    requires start + |ops| <= WIDTH
    ensures i in Apply(tags, ops, start) <==>
            if start <= i < start + |ops| then Decided(ops[i - start], i in tags) else i in tags
  {
    if ops == "" {
    } else {
      ApplyAt(tags, ops[..|ops| - 1], start, i);
      assert i - start < |ops| - 1 ==> start <= i ==> ops[..|ops| - 1][i - start] == ops[i - start];
    }
  }
}
