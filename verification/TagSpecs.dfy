// Tag specifications by their text: an optional mark, a decimal number, and one character per tag.

module TagSpecs {
  import opened TagWords
  import opened TagOps

  /** `n` in decimal. */
  function Decimal(n: nat): string {
    if n < 10 then [('0' as int + n) as char] else Decimal(n / 10) + Decimal(n % 10)
  }

  ghost predicate AllDigits(s: string) {
    forall k | 0 <= k < |s| :: '0' <= s[k] <= '9'
  }

  /** The characters of the operations: none, or not beginning with another digit. */
  ghost predicate NoDigit(ops: string) {
    ops == "" || !('0' <= ops[0] <= '9')
  }

  lemma {:induction false} NumberDecimal(n: nat)
    ensures Decimal(n) != "" && AllDigits(Decimal(n)) && Number(Decimal(n)) == n
  {
    var last := [('0' as int + n % 10) as char];
    assert last[..0] == "" && Number("") == 0 && Number(last) == n % 10;
    if n >= 10 {
      NumberDecimal(n / 10);
      assert Decimal(n % 10) == last;
      assert Decimal(n)[..|Decimal(n)| - 1] == Decimal(n / 10);
    }
  }

  lemma {:induction false} DigitsThenOps(digits: string, ops: string)
    requires AllDigits(digits) && NoDigit(ops)
    ensures Digits(digits + ops) == |digits|
  {
    if digits != "" {
      assert (digits + ops)[1..] == digits[1..] + ops;
      DigitsThenOps(digits[1..], ops);
    }
  }

  /** A number and what follows it are told apart; without a number the first tag is meant. */
  lemma SpecParts(n: nat, ops: string)
    requires NoDigit(ops)
    ensures Start(Decimal(n) + ops) == n && Ops(Decimal(n) + ops) == ops
    ensures Start(ops) == 0 && Ops(ops) == ops
  {
    NumberDecimal(n);
    DigitsThenOps(Decimal(n), ops);
    DigitsThenOps("", ops);
    assert (Decimal(n) + ops)[..|Decimal(n)|] == Decimal(n);
    assert "" + ops == ops;
  }

  lemma MeaningAt(tags: Word, spec: string, n: nat, ops: string, i: nat)
    requires Start(spec) == n && Ops(spec) == ops
    ensures Fits(spec) <==> if ops == "" then n < WIDTH else n + |ops| <= WIDTH
    ensures Fits(spec) ==>
              (i in Meaning(tags, spec) <==>
               if ops == "" then i == n
               else if n <= i < n + |ops| then Decided(ops[i - n], i in tags)
               else i in tags)
  {
    if n + |ops| <= WIDTH {
      ApplyAt(tags, ops, n, i);
    }
  }

  /** `-c`: a bare number selects exactly that tag; otherwise each character decides its own tag. */
  lemma MeaningIs(tags: Word, n: nat, ops: string, i: nat)
    requires NoDigit(ops)
    ensures Fits(Decimal(n) + ops) <==> if ops == "" then n < WIDTH else n + |ops| <= WIDTH
    ensures Fits(Decimal(n) + ops) ==>
              (i in Meaning(tags, Decimal(n) + ops) <==>
               if ops == "" then i == n
               else if n <= i < n + |ops| then Decided(ops[i - n], i in tags)
               else i in tags)
  {
    SpecParts(n, ops);
    MeaningAt(tags, Decimal(n) + ops, n, ops, i);
  }

  /** `-t`: the same on the selected tags, except that after a mark a bare number changes nothing. */
  lemma TagsetIs(tags: Word, marked: bool, n: nat, ops: string, i: nat)
    requires NoDigit(ops)
    ensures var spec := (if marked then "!" else "") + (Decimal(n) + ops);
            && (Marked(spec) <==> marked) && Unmarked(spec) == Decimal(n) + ops
            && (TagsetFits(spec) <==> if ops == "" then marked || n < WIDTH else n + |ops| <= WIDTH)
            && (TagsetFits(spec) ==>
                  (i in TagsetMeaning(tags, spec) <==>
                   if ops == "" then (if marked then i in tags else i == n)
                   else if n <= i < n + |ops| then Decided(ops[i - n], i in tags)
                   else i in tags))
  {
    var text := Decimal(n) + ops;
    var spec := (if marked then "!" else "") + text;
    NumberDecimal(n);
    SpecParts(n, ops);
    assert text[0] == Decimal(n)[0];
    assert marked ==> spec[1..] == text;
    assert !marked ==> spec == text;
    MeaningIs(tags, n, ops, i);
  }

  /** The server's half: a tag is kept and flipped by the masks, unless no tag would be left. */
  lemma SetClientTagsIs(tags: Word, keep: Word, flip: Word, i: nat)
    ensures var none := forall j :: (j in tags && j in keep) <==> j in flip;
            i in SetClientTags(tags, keep, flip) <==>
            if none then i in tags else ((i in tags && i in keep) <==> i !in flip)
  {
    var r := Masked(tags, keep, flip);
    assert forall j :: j in r <==> ((j in tags && j in keep) <==> j !in flip);
    if r != {} {
      var j :| j in r;
      assert !((j in tags && j in keep) <==> j in flip);
    }
  }
}
