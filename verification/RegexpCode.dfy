/** The bytecode of head/regexp.h and the relation "this stretch of bytes encodes these items". */
module RegexpCode {
  import opened Words
  import opened RegexpPattern

  const CBRA: byte := 2
  const CCHR: byte := 4
  const CDOT: byte := 8
  const CCL: byte := 12
  const CXCL: byte := 16
  const CDOL: byte := 20
  const CCEOF: byte := 22
  const CKET: byte := 24
  const CBACK: byte := 36
  const NCCL: byte := 40

  /** The quantifier is in the low bits of the opcode. */
  const STAR: byte := 1
  const RNGE: byte := 3

  /** Bit k of a byte, the least significant first: b & bittab[k]. */
  predicate HasBit(b: nat, k: nat)
    decreases k
  {
    if k == 0 then b % 2 == 1 else HasBit(b / 2, k - 1)
  }

  /** ISTHERE: is bit c set in the bitmap at ep? */
  predicate IsThere(code: seq<byte>, ep: nat, c: byte)
    requires ep + c / 8 < |code|
  {
    HasBit(code[ep + c / 8], c % 8)
  }

  predicate Wide(members: set<byte>) {
    exists c | c in members :: c >= 128
  }

  function AtomOp(a: Atom): byte {
    match a
    case Chr(_) => CCHR
    case Dot => CDOT
    case Class(negated, members) => if Wide(members) then CXCL else if negated then NCCL else CCL
  }

  /** Bytes after the opcode. */
  function AtomArgs(a: Atom): nat {
    match a
    case Chr(_) => 1
    case Dot => 0
    case Class(_, members) => if Wide(members) then 32 else 16
  }

  /** The bytes after the opcode of an atom, found at ep. */
  ghost predicate AtomArgsAt(code: seq<byte>, ep: nat, a: Atom) {
    ep + AtomArgs(a) <= |code| &&
    match a
    case Chr(c) => code[ep] == c
    case Dot => true
    case Class(negated, members) =>
      if Wide(members) then
        forall c: byte :: IsThere(code, ep, c) <==> Accepts(a, c)
      else
        forall c: byte :: c < 128 ==> (IsThere(code, ep, c) <==> Accepts(a, c) != negated)
  }

  function ItemSize(i: Item): nat {
    match i
    case One(a) => 1 + AtomArgs(a)
    case Star(a) => 1 + AtomArgs(a)
    case Range(a, _, _) => 3 + AtomArgs(a)
    case Dollar => 1
    case Open(_) => 2
    case Close(_) => 2
    case Back(_) => 2
    case BackStar(_) => 2
  }

  ghost predicate ItemAt(code: seq<byte>, ep: nat, i: Item) {
    ep + ItemSize(i) <= |code| &&
    match i
    case One(a) => code[ep] == AtomOp(a) && AtomArgsAt(code, ep + 1, a)
    case Star(a) => code[ep] == AtomOp(a) + STAR && AtomArgsAt(code, ep + 1, a)
    case Range(a, lo, hi) =>
      && code[ep] == AtomOp(a) + RNGE && AtomArgsAt(code, ep + 1, a)
      && code[ep + 1 + AtomArgs(a)] == lo && code[ep + 2 + AtomArgs(a)] == hi
    case Dollar => code[ep] == CDOL
    case Open(g) => code[ep] == CBRA && code[ep + 1] == g
    case Close(g) => code[ep] == CKET && code[ep + 1] == g
    case Back(g) => code[ep] == CBACK && code[ep + 1] == g
    case BackStar(g) => code[ep] == CBACK + STAR && code[ep + 1] == g
  }

  /** A complete program: the items, then the end mark. */
  ghost predicate Encodes(code: seq<byte>, ep: nat, items: seq<Item>)
    decreases |items|
  {
    if items == [] then ep < |code| && code[ep] == CCEOF
    else ItemAt(code, ep, items[0]) && Encodes(code, ep + ItemSize(items[0]), items[1..])
  }

  /** The test `advance` makes for the atom opcode `op` with operands at ep, on the character c. */
  predicate Tests(code: seq<byte>, ep: nat, op: byte, c: byte)
    requires op == CCHR ==> ep < |code|
    requires op == CCL || op == NCCL ==> ep + 16 <= |code|
    requires op == CXCL ==> ep + 32 <= |code|
  {
    if op == CCHR then code[ep] == c
    else if op == CDOT then c != 0
    else if op == CXCL then IsThere(code, ep, c)
    else if op == CCL then c < 128 && IsThere(code, ep, c)
    else if op == NCCL then !(c < 128 && IsThere(code, ep, c))
    else false
  }

  /** The bitmap test decides exactly what the atom accepts, the terminating NUL included. */
  lemma TestsIffAccepts(code: seq<byte>, ep: nat, a: Atom, c: byte)
    requires AtomArgsAt(code, ep, a) && NulFreeAtom(a)
    ensures Tests(code, ep, AtomOp(a), c) <==> Accepts(a, c)
  {
    if a.Class? && !Wide(a.members) && c >= 128 {
      assert c !in a.members;
    }
  }

  /** The opcode alone says which case of `advance` runs. */
  lemma OpcodeTells(code: seq<byte>, ep: nat, items: seq<Item>)
    requires Encodes(code, ep, items)
    ensures ep < |code|
    ensures code[ep] == CCEOF <==> items == []
    ensures code[ep] == CBACK + STAR <==> items != [] && items[0].BackStar?
    ensures code[ep] % 4 == STAR && code[ep] != CBACK + STAR <==> items != [] && items[0].Star?
    ensures code[ep] % 4 == RNGE <==> items != [] && items[0].Range?
    ensures code[ep] == CDOL <==> items != [] && items[0].Dollar?
    ensures code[ep] == CBRA <==> items != [] && items[0].Open?
    ensures code[ep] == CKET <==> items != [] && items[0].Close?
    ensures code[ep] == CBACK <==> items != [] && items[0].Back?
  {}
}
