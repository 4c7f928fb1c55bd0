/** How runtime/partitioner.cpp reads an operation: a list of strings whose
    first entry names the operation and whose remaining entries come in
    (register, index) pairs, each index parsed with `std::stoul`. */
module OpDecoding {
  import opened Bits
  import opened Wrappers

  /** `QubitRef`: a register name and an index into it. */
  datatype QubitRef = QubitRef(reg: string, index: nat)

  /** One more than the largest `unsigned long` of a 64-bit platform. */
  const ULongRange: nat := 0x1_0000_0000_0000_0000

  // ---------------------------------------------------------------------------
  // std::stoul in base 10

  /** The characters `isspace` accepts in the C locale. */
  predicate IsSpace(c: char) {
    c == ' ' || c == '\t' || c == '\n' || c == '\U{0B}' || c == '\U{0C}' || c == '\r'
  }

  predicate IsDigit(c: char) {
    '0' <= c <= '9'
  }

  /** The number of leading white-space characters. */
  function LeadingSpaces(s: string): (n: nat)
    ensures n <= |s| && (forall i :: 0 <= i < n ==> IsSpace(s[i])) && (n < |s| ==> !IsSpace(s[n]))
  {
    if |s| > 0 && IsSpace(s[0]) then 1 + LeadingSpaces(s[1..]) else 0
  }

  /** The number of leading decimal digits. */
  function LeadingDigits(s: string): (n: nat)
    ensures n <= |s| && (forall i :: 0 <= i < n ==> IsDigit(s[i])) && (n < |s| ==> !IsDigit(s[n]))
  {
    if |s| > 0 && IsDigit(s[0]) then 1 + LeadingDigits(s[1..]) else 0
  }

  /** The value of a string of decimal digits, most significant first. */
  function DecimalValue(ds: string): nat
    requires forall i :: 0 <= i < |ds| ==> IsDigit(ds[i])
  {
    if |ds| == 0 then 0
    else assert IsDigit(ds[|ds| - 1]); 10 * DecimalValue(ds[..|ds| - 1]) + (ds[|ds| - 1] as int - '0' as int)
  }

  /** `std::stoul(s)`: skip white space, accept one optional sign, then read the
      longest run of digits. No digit at all is `invalid_argument`; a value that
      does not fit in 64 bits is `out_of_range`; both are None. A minus sign
      negates modulo 2^64, as `strtoul` does. Characters after the digits are
      ignored. */
  function Stoul(s: string): (r: Option<nat>)
    ensures r.Some? ==> r.value < ULongRange
  {
    var t := s[LeadingSpaces(s)..];
    if |t| > 0 && t[0] == '-' then Negated(Unsigned(t[1..]))
    else if |t| > 0 && t[0] == '+' then Unsigned(t[1..])
    else Unsigned(t)
  }

  /** The digits at the start of u, if there are any and they fit in 64 bits. */
  function Unsigned(u: string): (r: Option<nat>)
    ensures r.Some? ==> r.value < ULongRange
  {
    var d := LeadingDigits(u);
    if d == 0 || DecimalValue(u[..d]) >= ULongRange then None else Some(DecimalValue(u[..d]))
  }

  /** Unsigned negation modulo 2^64. */
  function Negated(v: Option<nat>): (r: Option<nat>)
    requires v.Some? ==> v.value < ULongRange
    ensures r.Some? ==> r.value < ULongRange
  {
    match v
    case None => None
    case Some(x) => Some(if x == 0 then 0 else ULongRange - x)
  }

  /** The decimal text of n: the inverse of Stoul on its range. */
  function Decimal(n: nat): (ds: string)
    ensures |ds| > 0 && forall i :: 0 <= i < |ds| ==> IsDigit(ds[i])
  {
    var last := ['0' + (n % 10) as char];
    if n < 10 then last else Decimal(n / 10) + last
  }

  lemma {:induction false} DecimalValueOf(n: nat)
    ensures DecimalValue(Decimal(n)) == n
  {
    var ds := Decimal(n);
    if n >= 10 {
      DecimalValueOf(n / 10);
      assert ds[..|ds| - 1] == Decimal(n / 10);
    }
  }

  /** Stoul reads back any 64-bit value written in decimal, after any
      leading white space and before any non-digit suffix. */
  lemma StoulDecimal(pad: string, n: nat, rest: string)
    requires n < ULongRange
    requires forall i :: 0 <= i < |pad| ==> IsSpace(pad[i])
    requires rest == [] || (!IsDigit(rest[0]))
    ensures Stoul(pad + Decimal(n) + rest) == Some(n)
  {
    var s := pad + Decimal(n) + rest;
    var ds := Decimal(n);
    SpacesPrefix(pad, ds + rest);
    assert s == pad + (ds + rest);
    assert s[LeadingSpaces(s)..] == ds + rest;
    DigitsPrefix(ds, rest);
    assert (ds + rest)[..|ds|] == ds;
    DecimalValueOf(n);
  }

  /** A minus sign in front of a value v below 2^64 gives 2^64 - v (and 0 for 0). */
  lemma StoulNegative(n: nat)
    requires n < ULongRange
    ensures Stoul("-" + Decimal(n)) == Some(if n == 0 then 0 else ULongRange - n)
  {
    var ds := Decimal(n);
    var s := "-" + ds;
    assert s[1..] == ds;
    DigitsPrefix(ds, []);
    assert ds + [] == ds;
    assert ds[..|ds|] == ds;
    DecimalValueOf(n);
  }

  /** A string with no digit after its white space and sign does not parse. */
  lemma StoulNoDigits(s: string)
    requires forall i :: 0 <= i < |s| ==> !IsDigit(s[i])
    ensures Stoul(s) == None
  {
  }

  lemma {:induction false} SpacesPrefix(pad: string, s: string)
    requires forall i :: 0 <= i < |pad| ==> IsSpace(pad[i])
    requires s == [] || !IsSpace(s[0])
    ensures LeadingSpaces(pad + s) == |pad|
  {
    if |pad| > 0 {
      assert (pad + s)[1..] == pad[1..] + s;
      SpacesPrefix(pad[1..], s);
    }
  }

  lemma {:induction false} DigitsPrefix(ds: string, s: string)
    requires forall i :: 0 <= i < |ds| ==> IsDigit(ds[i])
    requires s == [] || !IsDigit(s[0])
    ensures LeadingDigits(ds + s) == |ds|
  {
    if |ds| > 0 {
      assert (ds + s)[1..] == ds[1..] + s;
      DigitsPrefix(ds[1..], s);
    }
  }

  // ---------------------------------------------------------------------------
  // Operations as `analyze_separable_regions` classifies them

  /** What the analysis loop does with one operation. */
  datatype Effect =
    | Skip                            // empty, single-qubit, unknown or mis-sized
    | Alloc(reg: string, count: nat)  // `QALLOC reg n`: register reg[0..n-1]
    | Couple(qs: seq<QubitRef>)       // CNOT/CZ/SWAP (2 operands) or CCX (3)
    | Fails                           // a `stoul` threw

  /** The names of the two-operand gates `CNOT`, `CZ` and `SWAP`. */
  predicate IsPairGate(name: string) {
    name == "CNOT" || name == "CZ" || name == "SWAP"
  }

  /** The names the replay loop treats as single-qubit gates. */
  predicate IsSingleGate(name: string) {
    name == "H" || name == "X" || name == "Y" || name == "Z" || name == "S" || name == "T"
  }

  /** The first m (register, index) pairs after the name, or None when an index
      does not parse. */
  function Operands(op: seq<string>, m: nat): (r: Option<seq<QubitRef>>)
    requires 2 * m < |op|
    ensures r.Some? ==> |r.value| == m
    ensures r.Some? ==> forall k :: 0 <= k < m ==>
              r.value[k].reg == op[2 * k + 1] && Stoul(op[2 * k + 2]) == Some(r.value[k].index)
    ensures r.None? <==> exists k :: 0 <= k < m && Stoul(op[2 * k + 2]).None?
  {
    if m == 0 then Some([])
    else
      match Operands(op, m - 1)
      case None => None
      case Some(qs) =>
        var p := Stoul(op[2 * m]);
        if p.None? then None
        else
          var r := qs + [QubitRef(op[2 * m - 1], p.value)];
          assert forall k :: 0 <= k < m - 1 ==> r[k] == qs[k];
          Some(r)
  }

  /** The branch of the analysis loop an operation takes. */
  function Classify(op: seq<string>): (e: Effect)
    ensures e.Couple? ==> |e.qs| == 2 || |e.qs| == 3
    ensures e.Alloc? ==> |op| == 3 && op[0] == "QALLOC" && e.reg == op[1] && Stoul(op[2]) == Some(e.count)
  {
    if |op| == 0 then Skip
    else if op[0] == "QALLOC" && |op| == 3 then
      match Stoul(op[2])
      case None => Fails
      case Some(n) => Alloc(op[1], n)
    else if IsPairGate(op[0]) && |op| == 5 then
      match Operands(op, 2)
      case None => Fails
      case Some(qs) => Couple(qs)
    else if op[0] == "CCX" && |op| == 7 then
      match Operands(op, 3)
      case None => Fails
      case Some(qs) => Couple(qs)
    else Skip
  }

  /** Single-qubit gates and unknown names never register or link qubits. */
  lemma ClassifySingle(op: seq<string>)
    requires |op| > 0 && (IsSingleGate(op[0]) || (op[0] != "QALLOC" && !IsPairGate(op[0]) && op[0] != "CCX"))
    ensures Classify(op) == Skip
  {
  }

  /** A well-formed two- or three-operand gate couples exactly its operands. */
  lemma ClassifyCouple(op: seq<string>)
    requires |op| > 0 && ((IsPairGate(op[0]) && |op| == 5) || (op[0] == "CCX" && |op| == 7))
    ensures Classify(op).Couple? || Classify(op).Fails?
    ensures Classify(op).Couple? <==> Operands(op, |op| / 2).Some?
    ensures Classify(op).Couple? ==> Classify(op).qs == Operands(op, |op| / 2).value
  {
  }
}
