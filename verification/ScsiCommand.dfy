/** The command blocks `setupiopb` of SA/saio/common_scsi.c makes for disk reads and writes, and what a SCSI
    device makes of them. */
module ScsiCommand {
  import opened Words

  const C0_READ: byte := 0x08
  const C0_WRITE: byte := 0x0a
  const CD10BYTE: byte := 0x20
  const C1_WRVERIFY: byte := 0x2e
  const MAXLBA := 0x20_0000

  function XB(x: nat): byte { x / 0x100_0000 % 0x100 }
  function HB(x: nat): byte { x / 0x1_0000 % 0x100 }
  function MB(x: nat): byte { x / 0x100 % 0x100 }
  function LB(x: nat): byte { x % 0x100 }

  function Big(a: nat, b: nat, c: nat, d: nat): nat { a * 0x100_0000 + b * 0x1_0000 + c * 0x100 + d }

  lemma BytesOf(x: nat)
    requires x < 0x1_0000_0000
    ensures Big(XB(x), HB(x), MB(x), LB(x)) == x
  {
    Quotients(x);
    Positional(x, x / 0x100, x / 0x1_0000, x / 0x100_0000);
  }

  lemma Quotients(x: nat)
    ensures x / 0x1_0000 == x / 0x100 / 0x100 && x / 0x100_0000 == x / 0x1_0000 / 0x100
  {}

  lemma Positional(x: nat, a: nat, b: nat, c: nat)
    requires x < 0x1_0000_0000 && a == x / 0x100 && b == a / 0x100 && c == b / 0x100
    ensures Big(c % 0x100, b % 0x100, a % 0x100, x % 0x100) == x
  {}

  lemma ShortAddress(x: nat)
    requires x < MAXLBA
    ensures XB(x) == 0 && HB(x) < 32
  {}

  lemma LowBytes(x: nat)
    ensures Big(0, 0, MB(x), LB(x)) == x % 0x1_0000
  {}

  lemma LunBits(lun: nat, low: nat)
    requires lun < 8 && low < 32
    ensures (lun * 32 + low) / 32 == lun && (lun * 32 + low) % 32 == low
  {}

  /** How the unit writes: WrtVfy and BytVfy are its INT_WRTVFY and INT_BYTVFY flags. */
  datatype Unit = Unit(lun: nat, wrtVfy: bool, bytVfy: bool)

  /** Whether the ten-byte form is used. */
  predicate Extended(un: Unit, write: bool, lba: nat, count: nat) {
    (write && un.wrtVfy) || count >= 0x100 || lba >= MAXLBA
  }

  /** The bytes of the command for `count` blocks from lba on. */
  function Encode(un: Unit, write: bool, lba: nat, count: nat): (c: seq<byte>)
    requires un.lun < 8
    ensures |c| == 10
  {
    var cmd := if write then C0_WRITE else C0_READ;
    var check := write && un.wrtVfy;
    if Extended(un, write, lba, count) then
      [if check then C1_WRVERIFY else cmd + CD10BYTE, un.lun * 32 + (if check && un.bytVfy then 2 else 0),
       XB(lba), HB(lba), MB(lba), LB(lba), 0, MB(count), LB(count), 0]
    else
      [cmd, un.lun * 32 + HB(lba) % 32, MB(lba), LB(lba), count, 0, 0, 0, 0, 0]
  }

  /** What a device is told to transfer. */
  datatype Told = Told(write: bool, verify: bool, bytes: bool, lun: nat, lba: nat, count: nat) | NotATransfer

  /** By the definition of the commands: in the six-byte form a length of 0 means 256 blocks. */
  function Decode(c: seq<byte>): Told
    requires |c| == 10
  {
    var op, lun := c[0], c[1] / 32;
    if op == 0x08 || op == 0x0a then
      Told(op == 0x0a, false, false, lun, Big(0, c[1] % 32, c[2], c[3]), if c[4] == 0 then 256 else c[4])
    else if op == 0x28 || op == 0x2a || op == 0x2e then
      Told(op != 0x28, op == 0x2e, op == 0x2e && c[1] / 2 % 2 == 1, lun,
           Big(c[2], c[3], c[4], c[5]), Big(0, 0, c[7], c[8]))
    else NotATransfer
  }

  /** A device is told exactly what was asked for, unless the count does not fit 16 bits, or is 0 in a command
      of the short form. */
  lemma ToldAsAsked(un: Unit, write: bool, lba: nat, count: nat)
    requires un.lun < 8 && lba < 0x1_0000_0000
    ensures Decode(Encode(un, write, lba, count)) ==
              Told(write, write && un.wrtVfy, write && un.wrtVfy && un.bytVfy, un.lun, lba, count)
            <==> count < 0x1_0000 && (count > 0 || Extended(un, write, lba, count))
  {
    hide XB, HB, MB, LB, Big;
    BytesOf(lba);
    LowBytes(count);
    if Extended(un, write, lba, count) {
      LunBits(un.lun, 0);
      LunBits(un.lun, 2);
    } else {
      ShortAddress(lba);
      LunBits(un.lun, HB(lba));
    }
  }
}
