/** The bytes an audit entry is hashed over, written out. */
module AuditLayout {
  import opened Wrappers
  import opened Bytes
  import opened AuditChain

  /** The low 32 bits, most significant byte first. */
  function Four(n: nat): (bs: Bytes)
    ensures |bs| == 4
  {
    [(n / 0x100_0000 % 256) as byte, (n / 0x1_0000 % 256) as byte, (n / 0x100 % 256) as byte, (n % 256) as byte]
  }

  /** Sixty-four bits, most significant byte first. */
  function Eight(n: u64): (bs: Bytes)
    ensures |bs| == 8
  {
    Four(n / 0x1_0000_0000) + Four(n)
  }

  lemma Quotients(n: nat)
    ensures n / 256 / 256 == n / 0x1_0000
    ensures n / 256 / 256 / 256 == n / 0x100_0000
    ensures n / 256 / 256 / 256 / 256 == n / 0x1_0000_0000
  {
  }

  lemma LowByte(n: nat, width: nat)
    requires width > 0
    ensures BigEndian(n, width) == BigEndian(n / 256, width - 1) + [(n % 256) as byte]
  {
  }

  /** Splitting off the four least significant bytes. */
  lemma LowerBytes(n: nat, width: nat)
    ensures BigEndian(n, width + 4) == BigEndian(n / 0x1_0000_0000, width) + Four(n)
  {
    LowByte(n, width + 4);
    LowByte(n / 256, width + 3);
    LowByte(n / 256 / 256, width + 2);
    LowByte(n / 256 / 256 / 256, width + 1);
    Quotients(n);
  }

  lemma BigEndianIsEight(n: u64)
    ensures BigEndian(n, 8) == Eight(n)
  {
    LowerBytes(n, 4);
    LowerBytes(n / 0x1_0000_0000, 0);
  }

  /** One field as it is fed to the hasher: length, name, length, value. */
  function Line(name: string, value: Text): Bytes
    requires |name| < 16 && forall i :: 0 <= i < |name| ==> name[i] as int < 128
  {
    Eight(|name|) + Ascii(name) + Eight(|value|) + value
  }

  lemma EncodeIsLine(name: string, value: Text)
    requires |name| < 16 && forall i :: 0 <= i < |name| ==> name[i] as int < 128
    ensures Encode(Field(Ascii(name), value)) == Line(name, value)
  {
    BigEndianIsEight(|name|);
    BigEndianIsEight(|value|);
  }

  function SeverityName(s: Severity): string {
    match s case Info => "info" case Warning => "warning" case Critical => "critical"
  }

  lemma FirstFive(e: AuditEntry)
    ensures Encode(Field(ID, e.id)) == Line("id", e.id)
    ensures Encode(Field(SEQ, BigEndian(e.seqNo, 8))) == Line("seq", Eight(e.seqNo))
    ensures Encode(Field(TIMESTAMP, e.timestamp)) == Line("timestamp", e.timestamp)
    ensures Encode(Field(PREV_HASH, e.prevHash)) == Line("prev_hash", e.prevHash)
    ensures Encode(Field(ACTOR, e.actor)) == Line("actor", e.actor)
  {
    BigEndianIsEight(e.seqNo);
    EncodeIsLine("id", e.id);
    EncodeIsLine("seq", Eight(e.seqNo));
    EncodeIsLine("timestamp", e.timestamp);
    EncodeIsLine("prev_hash", e.prevHash);
    EncodeIsLine("actor", e.actor);
  }

  lemma SeverityLine(s: Severity)
    ensures Encode(Field(SEVERITY, SeverityText(s))) == Line("severity", Ascii(SeverityName(s)))
  {
    EncodeIsLine("severity", Ascii(SeverityName(s)));
    assert SeverityText(s) == Ascii(SeverityName(s));
  }

  lemma OtherFour(e: AuditEntry)
    ensures Encode(Field(ACTION, e.action)) == Line("action", e.action)
    ensures Encode(Field(RESOURCE, e.resource)) == Line("resource", e.resource)
    ensures Encode(Field(DETAILS, e.details)) == Line("details", e.details)
    ensures Encode(Field(TENANT_ID, TenantText(e.tenantId))) ==
            Line("tenant_id", if e.tenantId.Some? then e.tenantId.value else [])
  {
    EncodeIsLine("action", e.action);
    EncodeIsLine("resource", e.resource);
    EncodeIsLine("details", e.details);
    EncodeIsLine("tenant_id", TenantText(e.tenantId));
  }

  /** The hashed bytes: ten named fields in this order, each name and value after its own length. */
  lemma ContentLayout(e: AuditEntry)
    ensures Content(e) ==
            Line("id", e.id) + Line("seq", Eight(e.seqNo)) + Line("timestamp", e.timestamp)
            + Line("prev_hash", e.prevHash) + Line("actor", e.actor) + Line("action", e.action)
            + Line("resource", e.resource) + Line("details", e.details)
            + Line("severity", Ascii(SeverityName(e.severity)))
            + Line("tenant_id", if e.tenantId.Some? then e.tenantId.value else [])
  {
    var fs := Fields(e);
    EncodeTen(fs[0], fs[1], fs[2], fs[3], fs[4], fs[5], fs[6], fs[7], fs[8], fs[9]);
    assert fs == [fs[0], fs[1], fs[2], fs[3], fs[4], fs[5], fs[6], fs[7], fs[8], fs[9]];
    FirstFive(e);
    SeverityLine(e.severity);
    OtherFour(e);
    assert [] + Encode(fs[0]) == Encode(fs[0]);
  }
}
