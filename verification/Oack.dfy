/** Option negotiation of the TFTP client: reading the option list of an OACK packet
    (netboot/fsys_tftp.c, the OACK branch of buf_fill), against the option list format of the
    Negotiation Protocol section of RFC 2347. */
module Oack {
  import opened Decimal
  import opened Seqs

  const TFTP_DEFAULTSIZE_PACKET: nat := 512
  const TFTP_MAX_PACKET: nat := 1432

  /** One acknowledged option. */
  datatype Opt = BlkSize(value: nat) | TSize(value: nat)

  /** The values kept of an option list, or a refusal. A refusal can leave the block size or the
      file size overwritten: they are static variables of the client. */
  datatype Outcome = Outcome(ok: bool, packetsize: int, filemax: int)

  const BLKSIZE: string := "blksize"
  const TSIZE: string := "tsize"

  function Name(o: Opt): string {
    match o
    case BlkSize(_) => BLKSIZE
    case TSize(_) => TSIZE
  }

  /** An option on the wire: name and decimal value, each closed by NUL. */
  function EncodeOpt(o: Opt): string {
    Name(o) + (['\0'] + (Render(o.value) + ['\0']))
  }

  function Encode(opts: seq<Opt>): string {
    if opts == [] then "" else EncodeOpt(opts[0]) + Encode(opts[1..])
  }

  /** The two options as they stand on the wire. */
  lemma EncodedText(n: nat, rest: seq<Opt>)
    ensures Encode([BlkSize(n)] + rest) == "blksize\0" + Render(n) + "\0" + Encode(rest)
    ensures Encode([TSize(n)] + rest) == "tsize\0" + Render(n) + "\0" + Encode(rest)
  {
    hide Render;
    FirstEncoded(BlkSize(n), rest);
    FirstEncoded(TSize(n), rest);
    assert BLKSIZE + ['\0'] == "blksize\0" && TSIZE + ['\0'] == "tsize\0";
  }

  lemma FirstEncoded(o: Opt, rest: seq<Opt>)
    ensures Encode([o] + rest) == Name(o) + ['\0'] + Render(o.value) + ['\0'] + Encode(rest)
  {
    hide Render;
    assert ([o] + rest)[1..] == rest;
    assert EncodeOpt(o) == Name(o) + ['\0'] + Render(o.value) + ['\0'];
  }

  /** What an option list means: later values override earlier ones, and a block size below the
      default is refused on the spot. */
  function Apply(opts: seq<Opt>, packetsize: int, filemax: int): (r: Outcome)
    decreases |opts|
  {
    if opts == [] then Outcome(true, packetsize, filemax)
    else match opts[0]
      case BlkSize(v) =>
        if v < TFTP_DEFAULTSIZE_PACKET then Outcome(false, v, filemax)
        else Apply(opts[1..], v, filemax)
      case TSize(v) => Apply(opts[1..], packetsize, v)
  }

  /** strcmp (name, p) == 0 for a literal `name`. */
  predicate StringAt(mem: string, p: nat, name: string) {
    p + |name| <= |mem| && mem[p..p + |name|] == name && At(mem, p + |name|) == '\0'
  }

  /** Where the two skipping steps after a value leave the pointer: past the next NUL before `e`. */
  function SkipValue(mem: string, e: nat, p: nat): (q: nat)
    ensures p <= q
    decreases e - p
  {
    if p < e && At(mem, p) != '\0' then SkipValue(mem, e, p + 1)
    else if p < e then p + 1
    else p
  }

  /** The option loop started at `p`, the option text ending at `e`. */
  ghost function Parse(mem: string, e: nat, p: nat, packetsize: int, filemax: int): Outcome
    decreases e - p
  {
    if !(p < e && At(mem, p) != '\0') then Outcome(p <= e, packetsize, filemax)
    else if StringAt(mem, p, BLKSIZE) then
      var (v, q) := Getdec(mem, p + 8);
      assert p + 8 <= q;
      if v < TFTP_DEFAULTSIZE_PACKET then Outcome(false, v, filemax)
      else Parse(mem, e, SkipValue(mem, e, q), v, filemax)
    else if StringAt(mem, p, TSIZE) then
      var (v, q) := Getdec(mem, p + 6);
      assert p + 6 <= q;
      if v < 0 then Outcome(false, packetsize, -1)
      else Parse(mem, e, SkipValue(mem, e, q), packetsize, v)
    else Outcome(false, packetsize, filemax)
  }

  /** The OACK branch: `mem` is the receive buffer from the option text on, `len` the length of the
      option text taken from the UDP header. */
  ghost function ReadOack(mem: string, len: nat, packetsize: int, filemax: int): Outcome {
    if len > TFTP_MAX_PACKET then Outcome(false, packetsize, filemax)
    else Parse(mem, len, 0, packetsize, filemax)
  }

  method CompareAt(mem: string, p: nat, name: string) returns (same: bool)
    requires '\0' !in name
    ensures same == StringAt(mem, p, name)
  {
    for i := 0 to |name|
      invariant p + i <= |mem| || i == 0
      invariant i > 0 ==> mem[p..p + i] == name[..i]
    {
      if At(mem, p + i) != name[i] {
        assert p + |name| <= |mem| ==> mem[p..p + |name|][i] == mem[p + i];
        return false;
      }
      assert p + i < |mem|;
      assert mem[p..p + i + 1] == mem[p..p + i] + [mem[p + i]];
      assert name[..i + 1] == name[..i] + [name[i]];
    }
    same := p <= |mem| && At(mem, p + |name|) == '\0';
  }

  /** The OACK branch as it runs. */
  method ScanOack(mem: string, len: nat, packetsize0: int, filemax0: int)
    returns (ok: bool, packetsize: int, filemax: int)
    ensures Outcome(ok, packetsize, filemax) == ReadOack(mem, len, packetsize0, filemax0)
  {
    hide Getdec;
    hide Parse;
    hide SkipValue;
    hide StringAt;
    packetsize, filemax := packetsize0, filemax0;
    if len > TFTP_MAX_PACKET {
      return false, packetsize, filemax;
    }
    var p: int, e: int := 0, len;
    while At(mem, p) != '\0' && p < e
      invariant 0 <= p && Parse(mem, e, p, packetsize, filemax) == Parse(mem, e, 0, packetsize0, filemax0)
      decreases e - p
    {
      ParseUnfold(mem, e, p, packetsize, filemax);
      GetdecMoves(mem, p + 8);
      GetdecMoves(mem, p + 6);
      var isBlk := CompareAt(mem, p, BLKSIZE);
      var isSize := CompareAt(mem, p, TSIZE);
      if isBlk {
        var v;
        v, p := GetdecAt(mem, p + 8);
        packetsize := v;
        if packetsize < TFTP_DEFAULTSIZE_PACKET {
          return false, packetsize, filemax;
        }
      } else if isSize {
        var v;
        v, p := GetdecAt(mem, p + 6);
        filemax := v;
        if filemax < 0 {
          filemax := -1;
          return false, packetsize, filemax;
        }
      } else {
        return false, packetsize, filemax;
      }
      p := SkipRest(mem, e, p);
    }
    ParseUnfold(mem, e, p, packetsize, filemax);
    if p > e {
      return false, packetsize, filemax;
    }
    ok := true;
  }

  /** The rest of a value is passed, with its NUL. */
  method SkipRest(mem: string, e: nat, p: nat) returns (q: nat)
    ensures q == SkipValue(mem, e, p)
  {
    q := p;
    while q < e && At(mem, q) != '\0'
      invariant p <= q && SkipValue(mem, e, q) == SkipValue(mem, e, p)
    {
      q := q + 1;
    }
    if q < e {
      q := q + 1;
    }
  }

  lemma ParseUnfold(mem: string, e: nat, p: nat, packetsize: int, filemax: int)
    ensures Parse(mem, e, p, packetsize, filemax) ==
      if !(p < e && At(mem, p) != '\0') then Outcome(p <= e, packetsize, filemax)
      else if StringAt(mem, p, BLKSIZE) then
        var (v, q) := Getdec(mem, p + 8);
        if v < TFTP_DEFAULTSIZE_PACKET then Outcome(false, v, filemax)
        else Parse(mem, e, SkipValue(mem, e, q), v, filemax)
      else if StringAt(mem, p, TSIZE) then
        var (v, q) := Getdec(mem, p + 6);
        if v < 0 then Outcome(false, packetsize, -1)
        else Parse(mem, e, SkipValue(mem, e, q), packetsize, v)
      else Outcome(false, packetsize, filemax)
  {
    hide Getdec;
    hide SkipValue;
    hide StringAt;
  }

  lemma GetdecMoves(mem: string, p: nat)
    ensures p <= Getdec(mem, p).1
  {
  }

  /** The value text of an option stops the skipping loop right behind its NUL. */
  lemma {:induction false} SkipToNul(mem: string, e: nat, p: nat, k: nat)
    requires p <= k < e && At(mem, k) == '\0'
    requires forall i :: p <= i < k ==> At(mem, i) != '\0'
    ensures SkipValue(mem, e, p) == k + 1
    decreases k - p
  {
    if p < k {
      SkipToNul(mem, e, p + 1, k);
    }
  }

  /** The parts of an encoded option standing at `p`. */
  lemma OptLayout(mem: string, p: nat, name: string, num: string, enc: string)
    requires enc == name + (['\0'] + (num + ['\0']))
    requires p + |enc| <= |mem| && mem[p..p + |enc|] == enc
    ensures mem[p..p + |name|] == name && mem[p + |name|] == '\0'
    ensures var v := p + |name| + 1; mem[v..v + |num|] == num && mem[v + |num|] == '\0'
  {
    var e := p + |enc|;
    SliceOfConcat(mem, p, e, name, ['\0'] + (num + ['\0']));
    SliceOfConcat(mem, p + |name|, e, ['\0'], num + ['\0']);
    SliceOfConcat(mem, p + |name| + 1, e, num, ['\0']);
    assert mem[p + |name|..p + |name| + 1][0] == '\0';
    assert mem[e - 1..e][0] == '\0';
  }

  /** What a value text that begins with `digits` is read as. */
  function ValueOf(digits: string): int
    requires AllDigits(digits)
  {
    if digits == "" then -1 else Wrap32(Value(digits))
  }

  /** Any option with one of the two names, wherever it stands: the leading digits of its value count and what stands
      behind them is passed over. No digits at all, or a number that is negative as an int, is refused. */
  lemma ParseText(mem: string, e: nat, p: nat, name: string, digits: string, more: string, packetsize: int,
                  filemax: int)
    requires (name == "blksize" || name == "tsize") && AllDigits(digits) && '\0' !in more
    requires more == "" || !('0' <= more[0] <= '9')
    requires var enc := name + (['\0'] + (digits + more + ['\0'])); p + |enc| <= e <= |mem| && mem[p..p + |enc|] == enc
    ensures var v, q := ValueOf(digits), p + |name| + |digits| + |more| + 2;
      Parse(mem, e, p, packetsize, filemax) ==
        if name == "blksize" then (if v < 512 then Outcome(false, v, filemax) else Parse(mem, e, q, v, filemax))
        else if v < 0 then Outcome(false, packetsize, -1)
        else Parse(mem, e, q, packetsize, v)
  {
    hide Getdec;
    hide Parse;
    hide SkipValue;
    ParseUnfold(mem, e, p, packetsize, filemax);
    var enc := name + (['\0'] + (digits + more + ['\0']));
    OptLayout(mem, p, name, digits + more, enc);
    var v := p + |name| + 1;
    DigitsRead(mem, v, digits, more);
    SkipToNul(mem, e, v + |digits|, v + |digits + more|);
    assert StringAt(mem, p, name);
    assert mem[p] == name[0] by {
      assert mem[p..p + |name|][0] == mem[p];
    }
    assert name == "tsize" ==> !StringAt(mem, p, BLKSIZE) by {
      assert StringAt(mem, p, BLKSIZE) ==> mem[p..p + |BLKSIZE|][0] == mem[p] == 'b';
    }
  }

  lemma DigitsRead(mem: string, v: nat, digits: string, more: string)
    requires AllDigits(digits) && '\0' !in more && (more == "" || !('0' <= more[0] <= '9'))
    requires var n := |digits + more|; v + n < |mem| && mem[v..v + n] == digits + more && mem[v + n] == '\0'
    ensures Getdec(mem, v) == (ValueOf(digits), v + |digits|)
    ensures forall i :: v + |digits| <= i < v + |digits + more| ==> At(mem, i) != '\0'
  {
    var k := v + |digits|;
    SliceOfConcat(mem, v, v + |digits + more|, digits, more);
    assert more != "" ==> mem[k] == mem[k..k + |more|][0] == more[0];
    DigitEndOfRun(mem, v, k);
    assert digits != "" ==> mem[v] == digits[0];
    forall i | k <= i < k + |more|
      ensures mem[i] != '\0'
    {
      assert mem[i] == mem[k..k + |more|][i - k] == more[i - k];
    }
  }

  /** Where a list ends, and an option with any other name. */
  lemma ParseOther(mem: string, e: nat, p: nat, packetsize: int, filemax: int)
    requires e <= |mem|
    ensures p == e || (p < e && mem[p] == '\0') ==>
      Parse(mem, e, p, packetsize, filemax) == Outcome(true, packetsize, filemax)
    ensures p > e ==> Parse(mem, e, p, packetsize, filemax) == Outcome(false, packetsize, filemax)
    ensures p < e && mem[p] != '\0' && !StringAt(mem, p, "blksize") && !StringAt(mem, p, "tsize") ==>
      Parse(mem, e, p, packetsize, filemax) == Outcome(false, packetsize, filemax)
  {
    ParseUnfold(mem, e, p, packetsize, filemax);
    hide Parse;
    hide StringAt;
  }

  /** One encoded option is read as that option, wherever it stands. */
  lemma ParseOneOpt(mem: string, e: nat, p: nat, o: Opt, packetsize: int, filemax: int)
    requires o.value <= INT_MAX
    requires p + |EncodeOpt(o)| <= e <= |mem| && mem[p..p + |EncodeOpt(o)|] == EncodeOpt(o)
    ensures Parse(mem, e, p, packetsize, filemax) ==
            if o.TSize? then Parse(mem, e, p + |EncodeOpt(o)|, packetsize, o.value)
            else if o.value < TFTP_DEFAULTSIZE_PACKET then Outcome(false, o.value, filemax)
            else Parse(mem, e, p + |EncodeOpt(o)|, o.value, filemax)
  {
    hide Parse;
    hide Render;
    RenderDigits(o.value);
    assert Render(o.value) + "" == Render(o.value);
    ParseText(mem, e, p, Name(o), Render(o.value), "", packetsize, filemax);
  }

  lemma ParseNothing(mem: string, e: nat, p: nat, packetsize: int, filemax: int)
    requires p == e
    ensures Parse(mem, e, p, packetsize, filemax) == Outcome(true, packetsize, filemax)
  {
  }

  /** Every well-formed option list is read to exactly what it means, wherever it stands. */
  lemma {:induction false} ParseEncoded(mem: string, e: nat, p: nat, opts: seq<Opt>, packetsize: int, filemax: int)
    requires forall i :: 0 <= i < |opts| ==> opts[i].value <= INT_MAX
    requires p <= e <= |mem| && mem[p..e] == Encode(opts)
    ensures Parse(mem, e, p, packetsize, filemax) == Apply(opts, packetsize, filemax)
    decreases |opts|
  {
    hide Parse;
    hide EncodeOpt;
    if opts == [] {
      ParseNothing(mem, e, p, packetsize, filemax);
    } else {
      var o := opts[0];
      var q := p + |EncodeOpt(o)|;
      SliceOfConcat(mem, p, e, EncodeOpt(o), Encode(opts[1..]));
      ParseOneOpt(mem, e, p, o, packetsize, filemax);
      ParseEncoded(mem, e, q, opts[1..],
                   if o.BlkSize? then o.value else packetsize, if o.TSize? then o.value else filemax);
    }
  }

  /** The OACK branch reads any encoded option list that fits the packet to its meaning, whatever
      stale bytes follow it in the receive buffer. */
  lemma ReadOackEncoded(opts: seq<Opt>, junk: string, packetsize: int, filemax: int)
    requires forall i :: 0 <= i < |opts| ==> opts[i].value <= INT_MAX
    requires |Encode(opts)| <= 1432
    ensures ReadOack(Encode(opts) + junk, |Encode(opts)|, packetsize, filemax)
         == Apply(opts, packetsize, filemax)
  {
    ParseEncoded(Encode(opts) + junk, |Encode(opts)|, 0, opts, packetsize, filemax);
  }

  /** The last block size in the list, or `otherwise`. */
  function LastBlkSize(opts: seq<Opt>, otherwise: int): int {
    if opts == [] then otherwise
    else if opts[|opts| - 1].BlkSize? then opts[|opts| - 1].value
    else LastBlkSize(opts[..|opts| - 1], otherwise)
  }

  /** The last transfer size in the list, or `otherwise`. */
  function LastTSize(opts: seq<Opt>, otherwise: int): int {
    if opts == [] then otherwise
    else if opts[|opts| - 1].TSize? then opts[|opts| - 1].value
    else LastTSize(opts[..|opts| - 1], otherwise)
  }

  predicate AllLarge(opts: seq<Opt>) {
    forall i :: 0 <= i < |opts| && opts[i].BlkSize? ==> opts[i].value >= 512
  }

  lemma {:induction false} LastFromFront(opts: seq<Opt>, a: int, b: int)
    requires opts != []
    ensures LastBlkSize(opts, a) ==
            LastBlkSize(opts[1..], if opts[0].BlkSize? then opts[0].value else a)
    ensures LastTSize(opts, b) ==
            LastTSize(opts[1..], if opts[0].TSize? then opts[0].value else b)
  {
    if |opts| > 1 {
      var n := |opts| - 1;
      assert opts[1..][|opts[1..]| - 1] == opts[n];
      assert opts[1..][..n - 1] == opts[..n][1..];
      LastFromFront(opts[..n], a, b);
    }
  }

  /** An option list is accepted exactly when no block size in it is below the default, and then it
      is read to its last values. */
  lemma {:induction false} ApplyIsLastValues(opts: seq<Opt>, packetsize: int, filemax: int)
    ensures Apply(opts, packetsize, filemax).ok <==> AllLarge(opts)
    ensures AllLarge(opts) ==>
      Apply(opts, packetsize, filemax)
      == Outcome(true, LastBlkSize(opts, packetsize), LastTSize(opts, filemax))
    decreases |opts|
  {
    if opts != [] {
      LastFromFront(opts, packetsize, filemax);
      var o := opts[0];
      assert AllLarge(opts) <==> (o.BlkSize? ==> o.value >= TFTP_DEFAULTSIZE_PACKET) && AllLarge(opts[1..]) by {
        assert forall i :: 1 <= i < |opts| ==> opts[i] == opts[1..][i - 1];
      }
      ApplyIsLastValues(opts[1..], if o.BlkSize? then o.value else packetsize,
                        if o.TSize? then o.value else filemax);
    }
  }

  /** Whatever the outcome, the file size afterwards is the old one or one the list names. */
  lemma {:induction false} ApplyFilemax(opts: seq<Opt>, packetsize: int, filemax: int, size: int)
    requires forall i :: 0 <= i < |opts| && opts[i].TSize? ==> opts[i].value == size
    ensures Apply(opts, packetsize, filemax).filemax in {filemax, size}
    decreases |opts|
  {
    if opts != [] {
      var o := opts[0];
      ApplyFilemax(opts[1..], if o.BlkSize? then o.value else packetsize,
                   if o.TSize? then o.value else filemax, size);
    }
  }
}
