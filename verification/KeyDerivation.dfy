/** The info strings of the key schedule (the `info` input of HKDF-Expand, section 2.3 of RFC 5869) and the
    tree of secrets derived with them. */
module KeyDerivation {
  import opened Bytes
  import Aead
  import Codec
  import ManagedBuffer
  import Session
  import Channel
  import Delivery

  const MAX_INFO_SIZE: nat := 2 + 8 + 12 + ManagedBuffer.MAX_HASH_SIZE
  const MAX_KEY_SIZE: nat := 32

  datatype Label =
    | Derived
    | ReqHsData
    | RspHsData
    | ReqAppData
    | RspAppData
    | Key
    | Iv
    | Finished
    | ExpMaster
    | TrafficUpd
  {
    function Text(): (s: bytes)
      ensures 2 <= |s| <= 12
    {
      match this
      case Derived => [0x64, 0x65, 0x72, 0x69, 0x76, 0x65, 0x64]
      case ReqHsData => [0x72, 0x65, 0x71, 0x20, 0x68, 0x73, 0x20, 0x64, 0x61, 0x74, 0x61]
      case RspHsData => [0x72, 0x73, 0x70, 0x20, 0x68, 0x73, 0x20, 0x64, 0x61, 0x74, 0x61]
      case ReqAppData => [0x72, 0x65, 0x71, 0x20, 0x61, 0x70, 0x70, 0x20, 0x64, 0x61, 0x74, 0x61]
      case RspAppData => [0x72, 0x73, 0x70, 0x20, 0x61, 0x70, 0x70, 0x20, 0x64, 0x61, 0x74, 0x61]
      case Key => [0x6B, 0x65, 0x79]
      case Iv => [0x69, 0x76]
      case Finished => [0x66, 0x69, 0x6E, 0x69, 0x73, 0x68, 0x65, 0x64]
      case ExpMaster => [0x65, 0x78, 0x70, 0x20, 0x6D, 0x61, 0x73, 0x74, 0x65, 0x72]
      case TrafficUpd => [0x74, 0x72, 0x61, 0x66, 0x66, 0x69, 0x63, 0x20, 0x75, 0x70, 0x64]
    }
  }

  const VERSION_VALUE: bytes := [0x73, 0x70, 0x64, 0x6D, 0x20, 0x2E, 0x20, 0x20]

  /** "spdmX.Y " with the digits of the version. */
  function VersionText(version: byte): (s: bytes)
    ensures |s| == 8
  {
    VERSION_VALUE[4 := version / 16 + 0x30][6 := version % 16 + 0x30]
  }

  /** Length, version, label and context in order. */
  function BinConcat(length: nat, version: byte, text: bytes, context: bytes): (s: bytes)
    ensures |s| == 10 + |text| + |context|
  {
    Le(length, 2) + VersionText(version) + text + context
  }

  function OrEmpty(context: Option<bytes>): bytes {
    match context case None => [] case Some(c) => c
  }

  /** The ten bytes in front of an info string: the length in two, then "spdm", the two digits of the version
      around a dot, and a space. */
  predicate ReadsAs(info: bytes, length: nat, version: byte) {
    && |info| >= 10 && info[0] == length % 256 && info[1] == length / 256 % 256
    && info[2..6] == Ascii("spdm") && info[7] == '.' as int && info[9] == ' ' as int
    && info[6] >= '0' as int && '0' as int <= info[8] < '0' as int + 16
    && version == 16 * (info[6] - '0' as int) + (info[8] - '0' as int)
  }

  /** The codes of ASCII characters. */
  function Ascii(text: string): (s: bytes)
    ensures |s| == |text|
  {
    seq(|text|, i requires 0 <= i < |text| => if text[i] < '\U{80}' then text[i] as int else 0)
  }

  lemma InfoMeans(length: nat, version: byte, text: bytes, context: bytes)
    ensures ReadsAs(BinConcat(length, version, text, context), length, version)
    ensures BinConcat(length, version, text, context)[10..] == text + context
  {
    var s := BinConcat(length, version, text, context);
    Parts(length, version, text, context);
    assert s[0] == s[..2][0] && s[1] == s[..2][1];
    assert ByteAt(length, 1) == ByteAt(length / 256, 0);
    assert forall i :: 2 <= i < 10 ==> s[i] == VersionText(version)[i - 2];
    assert s[2..6] == Ascii("spdm");
    assert version == 16 * (version / 16) + version % 16;
  }

  /** The labels of secrets, as text. */
  lemma SecretLabels()
    ensures ReqHsData.Text() == Ascii("req hs data") && RspHsData.Text() == Ascii("rsp hs data")
    ensures ReqAppData.Text() == Ascii("req app data") && RspAppData.Text() == Ascii("rsp app data")
    ensures TrafficUpd.Text() == Ascii("traffic upd")
  {
  }

  /** The other labels, as text. */
  lemma OtherLabels()
    ensures Derived.Text() == Ascii("derived") && Finished.Text() == Ascii("finished") && ExpMaster.Text() == Ascii("exp master")
    ensures Key.Text() == Ascii("key") && Iv.Text() == Ascii("iv")
  {
  }

  /** `binconcat`: the size of the string put into the buffer. A buffer below the fixed part of ten bytes
      aborts, one that is otherwise too small is refused. */
  method Binconcat(length: nat, version: byte, text: bytes, context: Option<bytes>, buffer: array<byte>)
    returns (r: Outcome<Option<nat>>)
    modifies buffer
    ensures var info := BinConcat(length, version, text, OrEmpty(context));
            if buffer.Length < 10 then r == Abort
            else if |info| > buffer.Length then r == Ok(None)
            else r == Ok(Some(|info|)) && buffer[..] == Spliced(old(buffer[..]), 0, info)
    ensures !r.Ok? || r.value.None? ==> buffer[..] == old(buffer[..])
    ensures r.Ok? && r.value.Some? ==>
              && r.value.value == 10 + |text| + |OrEmpty(context)| <= buffer.Length
              && ReadsAs(buffer[..r.value.value], length, version) && buffer[10..r.value.value] == text + OrEmpty(context)
              && buffer[r.value.value..] == old(buffer[r.value.value..])
  {
    InfoMeans(length, version, text, OrEmpty(context));
    var len := |text|;
    if context.Some? {
      len := len + |context.value|;
    }
    if buffer.Length < 10 {
      return Abort;
    }
    if len > buffer.Length - 2 - 8 {
      return Ok(None);
    }
    var versionText := Digits(version);
    var used := WriteParts(length, versionText, text, context, buffer);
    assert buffer[..used] == BinConcat(length, version, text, OrEmpty(context));
    assert buffer[10..used] == buffer[..used][10..];
    r := Ok(Some(used));
  }

  method Digits(version: byte) returns (s: bytes)
    ensures s == VersionText(version)
  {
    var digits := new byte[8];
    CopyInto(digits, 0, VERSION_VALUE);
    digits[4] := version / 16 + 0x30;
    digits[6] := version % 16 + 0x30;
    s := digits[..];
    assert s == VersionText(version);
  }

  method WriteParts(length: nat, versionText: bytes, text: bytes, context: Option<bytes>, buffer: array<byte>)
    returns (used: nat)
    requires 2 + |versionText| + |text| + |OrEmpty(context)| <= buffer.Length
    modifies buffer
    ensures used == 2 + |versionText| + |text| + |OrEmpty(context)|
    ensures buffer[..] == Spliced(old(buffer[..]), 0, Le(length, 2) + versionText + text + OrEmpty(context))
  {
    ghost var before := buffer[..];
    var writer := new Codec.Writer(buffer, 0);
    assert Codec.Emitted(writer, before, 0, []);
    var _ := Codec.EmitU16(writer, length, before, 0, []);
    assert [] + Le(length, 2) == Le(length, 2);
    var _ := Codec.EmitSlice(writer, versionText, before, 0, Le(length, 2));
    var _ := Codec.EmitSlice(writer, text, before, 0, Le(length, 2) + versionText);
    if context.Some? {
      var _ := Codec.EmitSlice(writer, context.value, before, 0, Le(length, 2) + versionText + text);
    } else {
      assert Le(length, 2) + versionText + text + [] == Le(length, 2) + versionText + text;
    }
    used := writer.offs;
  }

  /** The buffers of the key schedule hold every label with a context of up to the largest hash. */
  lemma InfoFits(length: nat, version: byte, use: Label, context: bytes)
    requires |context| <= ManagedBuffer.MAX_HASH_SIZE
    ensures 10 <= |BinConcat(length, version, use.Text(), context)| <= MAX_INFO_SIZE == 86
  {
  }

  // Domain separation

  /** No label is a prefix of another. */
  lemma LabelsPrefixFree(a: Label, b: Label) returns (k: nat)
    requires a != b
    ensures k < |a.Text()| && k < |b.Text()| && a.Text()[k] != b.Text()[k]
  {
    k := if a.Text()[0] != b.Text()[0] then 0 else if a.Text()[1] != b.Text()[1] then 1 else 4;
  }

  lemma LabelsSeparate(a: Label, c: bytes, b: Label, d: bytes)
    requires a != b
    ensures a.Text() + c != b.Text() + d
  {
    var k := LabelsPrefixFree(a, b);
    assert (a.Text() + c)[k] != (b.Text() + d)[k];
  }

  lemma VersionTextInjective(v: byte, w: byte)
    requires VersionText(v) == VersionText(w)
    ensures v == w
  {
    assert VersionText(v)[4] == VersionText(w)[4] && VersionText(v)[6] == VersionText(w)[6];
    assert v == 16 * (v / 16) + v % 16 && w == 16 * (w / 16) + w % 16;
  }

  /** The string gives back everything it was made from. */
  lemma BinConcatInjective(n: nat, v: byte, a: Label, c: bytes, m: nat, w: byte, b: Label, d: bytes)
    requires n < 0x1_0000 && m < 0x1_0000
    requires BinConcat(n, v, a.Text(), c) == BinConcat(m, w, b.Text(), d)
    ensures n == m && v == w && a == b && c == d
  {
    Parts(n, v, a.Text(), c);
    Parts(m, w, b.Text(), d);
    Pow256Values();
    LeInjective(n, m, 2);
    VersionTextInjective(v, w);
    if a != b {
      LabelsSeparate(a, c, b, d);
    }
    assert c == (a.Text() + c)[|a.Text()|..] && d == (b.Text() + d)[|b.Text()|..];
  }

  lemma Parts(n: nat, v: byte, text: bytes, c: bytes)
    ensures var s := BinConcat(n, v, text, c);
            s[..2] == Le(n, 2) && s[2..10] == VersionText(v) && s[10..] == text + c
  {
  }

  // The derivation tree

  /** What HKDF-Expand is keyed with: a secret of the tree, or a pre-shared key known by its hint. */
  datatype Prk = Secret(secret: bytes) | PskHandshake(hint: bytes) | PskMaster(hint: bytes)

  datatype Hkdf = Hkdf(expand: (Prk, bytes, nat) -> Option<bytes>) {
    /** Outputs longer than an IV collide for no two keys or info strings; IVs have their size. */
    ghost predicate Ideal() {
      && (forall p, i, n, q, j, m {:trigger expand(p, i, n), expand(q, j, m)} ::
            n > Aead.IV_SIZE && m > Aead.IV_SIZE && expand(p, i, n).Some? && expand(p, i, n) == expand(q, j, m) ==> p == q && i == j)
      && (forall p, i {:trigger expand(p, i, Aead.IV_SIZE)} ::
            expand(p, i, Aead.IV_SIZE).Some? ==> |expand(p, i, Aead.IV_SIZE).value| == Aead.IV_SIZE)
    }
  }

  /** The negotiated algorithms, the two roots of the tree and the transcript hashes bound into it. */
  datatype Tree = Tree(hkdf: Hkdf, version: byte, hashSize: nat, keySize: nat, handshake: Prk, master: Prk,
                       th1: bytes, th2: bytes)
  {
    ghost predicate Valid() {
      hkdf.Ideal() && Aead.IV_SIZE < hashSize < 0x1_0000 && keySize < 0x1_0000
    }

    function Info(length: nat, use: Label, context: bytes): bytes {
      BinConcat(length, version, use.Text(), context)
    }

    /** `derive_request_handshake_secret` and `derive_response_handshake_secret` */
    function HandshakeSecret(r: bool): Option<bytes> {
      hkdf.expand(handshake, Info(hashSize, if r then ReqHsData else RspHsData, th1), hashSize)
    }

    /** `derive_request_data_secret` and `derive_response_data_secret` */
    function DataSecret(r: bool): Option<bytes> {
      hkdf.expand(master, Info(hashSize, if r then ReqAppData else RspAppData, th2), hashSize)
    }

    /** `derive_update_secret` */
    function UpdateSecret(s: bytes): Option<bytes> {
      hkdf.expand(Secret(s), Info(hashSize, TrafficUpd, []), hashSize)
    }

    function AeadKey(s: bytes): Option<bytes> {
      hkdf.expand(Secret(s), Info(keySize, Key, []), MAX_KEY_SIZE)
    }

    /** `derive_aead_key_iv` */
    function KeyIv(s: bytes): Option<(bytes, bytes)> {
      match AeadKey(s)
      case None => None
      case Some(key) =>
        match hkdf.expand(Secret(s), Info(Aead.IV_SIZE, Iv, []), Aead.IV_SIZE)
        case None => None
        case Some(iv) => Some((key, iv))
    }

    /** The endpoints of a channel hold what this tree derives. */
    ghost predicate Derives(x: Channel.Ctx) {
      && (forall s {:trigger x.k.update(s)} :: x.k.update(s) == UpdateSecret(s))
      && (forall s {:trigger x.k.keyIv(s)} :: x.k.keyIv(s) == KeyIv(s))
      && (forall r: bool {:trigger HandshakeSecret(r)} ::
            && HandshakeSecret(r).Some?
            && KeyIv(HandshakeSecret(r).value) == Some((x.base.handshake.Get(r).key, x.base.handshake.Get(r).salt)))
      && (forall r: bool {:trigger DataSecret(r)} ::
            && DataSecret(r) == Some(x.base.app.Get(r).secret)
            && KeyIv(x.base.app.Get(r).secret) == Some((x.base.app.Get(r).param.key, x.base.app.Get(r).param.salt)))
    }

    /** The secret an epoch's key is expanded from. */
    function EpochSecret(x: Channel.Ctx, r: bool, p: Channel.Phase): Option<bytes> {
      if p.Handshake? then HandshakeSecret(r) else x.Secret(r, p.depth)
    }

    /** The key and info string that secret itself is expanded with. */
    function Origin(x: Channel.Ctx, r: bool, p: Channel.Phase): Option<(Prk, bytes)> {
      match p
      case Handshake => Some((handshake, Info(hashSize, if r then ReqHsData else RspHsData, th1)))
      case Data(d) =>
        if d == 0 then Some((master, Info(hashSize, if r then ReqAppData else RspAppData, th2)))
        else
          match x.Secret(r, d - 1)
          case None => None
          case Some(s) => Some((Secret(s), Info(hashSize, TrafficUpd, [])))
    }
  }

  /** An HKDF-Expand of the schedule: for `size` octets and this label and context, `output` octets are taken. */
  ghost predicate Expands(t: Tree, prk: Prk, size: nat, text: string, context: bytes, output: nat, r: Option<bytes>)
  {
    exists info :: && ReadsAs(info, size, t.version) && info[10..] == Ascii(text) + context
                   && r == t.hkdf.expand(prk, info, output)
  }

  lemma InfoExpands(t: Tree, prk: Prk, size: nat, use: Label, text: string, context: bytes, output: nat)
    requires use.Text() == Ascii(text)
    ensures Expands(t, prk, size, text, context, output, t.hkdf.expand(prk, t.Info(size, use, context), output))
  {
    InfoMeans(size, t.version, use.Text(), context);
  }

  /** The secrets: from which one, with which label and transcript hash, and how long. */
  lemma SecretsMean(t: Tree, s: bytes)
    ensures Expands(t, t.handshake, t.hashSize, "req hs data", t.th1, t.hashSize, t.HandshakeSecret(true))
    ensures Expands(t, t.handshake, t.hashSize, "rsp hs data", t.th1, t.hashSize, t.HandshakeSecret(false))
    ensures Expands(t, t.master, t.hashSize, "req app data", t.th2, t.hashSize, t.DataSecret(true))
    ensures Expands(t, t.master, t.hashSize, "rsp app data", t.th2, t.hashSize, t.DataSecret(false))
    ensures Expands(t, Secret(s), t.hashSize, "traffic upd", [], t.hashSize, t.UpdateSecret(s))
  {
    SecretLabels();
    InfoExpands(t, t.handshake, t.hashSize, ReqHsData, "req hs data", t.th1, t.hashSize);
    InfoExpands(t, t.handshake, t.hashSize, RspHsData, "rsp hs data", t.th1, t.hashSize);
    InfoExpands(t, t.master, t.hashSize, ReqAppData, "req app data", t.th2, t.hashSize);
    InfoExpands(t, t.master, t.hashSize, RspAppData, "rsp app data", t.th2, t.hashSize);
    InfoExpands(t, Secret(s), t.hashSize, TrafficUpd, "traffic upd", [], t.hashSize);
  }

  /** The key and IV of a secret. */
  lemma KeyIvMeans(t: Tree, s: bytes)
    requires t.KeyIv(s).Some?
    ensures Expands(t, Secret(s), t.keySize, "key", [], 32, Some(t.KeyIv(s).value.0))
    ensures Expands(t, Secret(s), 12, "iv", [], 12, Some(t.KeyIv(s).value.1))
  {
    OtherLabels();
    InfoExpands(t, Secret(s), t.keySize, Key, "key", [], MAX_KEY_SIZE);
    InfoExpands(t, Secret(s), 12, Iv, "iv", [], 12);
  }

  /** Two uses of the tree with different labels get different info strings. */
  lemma InfosDiffer(t: Tree, n: nat, a: Label, c: bytes, m: nat, b: Label, d: bytes)
    requires n < 0x1_0000 && m < 0x1_0000 && a != b
    ensures t.Info(n, a, c) != t.Info(m, b, d)
  {
    if t.Info(n, a, c) == t.Info(m, b, d) {
      BinConcatInjective(n, t.version, a, c, m, t.version, b, d);
    }
  }

  lemma OriginExpands(t: Tree, x: Channel.Ctx, r: bool, p: Channel.Phase)
    requires t.Derives(x) && t.EpochSecret(x, r, p).Some?
    ensures t.Origin(x, r, p).Some?
    ensures t.EpochSecret(x, r, p) == t.hkdf.expand(t.Origin(x, r, p).value.0, t.Origin(x, r, p).value.1, t.hashSize)
  {
    if p.Data? && p.depth == 0 {
      assert t.DataSecret(r) == Some(x.base.app.Get(r).secret);
    }
  }

  /** Different places of the tree have different origins, or origins whose parents are compared next. */
  lemma OriginsDiffer(t: Tree, x: Channel.Ctx, r: bool, p: Channel.Phase, q: bool, o: Channel.Phase)
    requires t.Valid() && t.Origin(x, r, p).Some? && t.Origin(x, q, o).Some?
    requires t.Origin(x, r, p) == t.Origin(x, q, o)
    ensures p.Handshake? == o.Handshake?
    ensures p.Handshake? ==> r == q
    ensures p.Data? ==> (p.depth == 0 <==> o.depth == 0)
    ensures p.Data? && p.depth == 0 ==> r == q
  {
    var a, b := LabelOf(r, p), LabelOf(q, o);
    if a != b {
      InfosDiffer(t, t.hashSize, a, ContextOf(t, p), t.hashSize, b, ContextOf(t, o));
    }
  }

  function LabelOf(r: bool, p: Channel.Phase): Label {
    match p
    case Handshake => if r then ReqHsData else RspHsData
    case Data(d) => if d > 0 then TrafficUpd else if r then ReqAppData else RspAppData
  }

  function ContextOf(t: Tree, p: Channel.Phase): bytes {
    match p
    case Handshake => t.th1
    case Data(d) => if d > 0 then [] else t.th2
  }

  /** No secret is derived at two places. */
  lemma {:induction false} SecretsDistinct(t: Tree, x: Channel.Ctx, r: bool, p: Channel.Phase, q: bool, o: Channel.Phase)
    requires t.Valid() && t.Derives(x)
    requires t.EpochSecret(x, r, p).Some? && t.EpochSecret(x, r, p) == t.EpochSecret(x, q, o)
    ensures r == q && p == o
    decreases if p.Data? then p.depth else 0
  {
    OriginExpands(t, x, r, p);
    OriginExpands(t, x, q, o);
    OriginsDiffer(t, x, r, p, q, o);
    if p.Data? && p.depth > 0 {
      SecretsDistinct(t, x, r, Channel.Data(p.depth - 1), q, Channel.Data(o.depth - 1));
    }
  }

  /** The key of an epoch is expanded from its secret. */
  lemma KeyOfSecret(t: Tree, x: Channel.Ctx, r: bool, p: Channel.Phase)
    requires t.Derives(x) && x.Material(r, p).Some?
    ensures t.EpochSecret(x, r, p).Some? && t.AeadKey(t.EpochSecret(x, r, p).value) == Some(x.Material(r, p).value.0)
  {
    match p
    case Handshake => assert t.HandshakeSecret(r).Some?;
    case Data(d) => if d == 0 { assert t.DataSecret(r) == Some(x.base.app.Get(r).secret); }
  }

  /** Keys derived with the ten labels from ideal HKDF never repeat, across directions, the handshake, and
      any number of key updates: the assumption under which the channel's runs are safe. */
  lemma DerivedKeysDistinct(t: Tree, x: Channel.Ctx)
    requires t.Valid() && t.Derives(x)
    ensures x.KeysDistinct()
  {
    forall r, p, q, o | x.Material(r, p).Some? && x.Material(q, o).Some?
                        && x.Material(r, p).value.0 == x.Material(q, o).value.0
      ensures r == q && p == o
    {
      KeyOfSecret(t, x, r, p);
      KeyOfSecret(t, x, q, o);
      SecretsDistinct(t, x, r, p, q, o);
    }
  }

  /** The schedule derived this way gives IVs of the right size. */
  lemma DerivedScheduleValid(t: Tree, x: Channel.Ctx)
    requires t.Valid() && t.Derives(x)
    ensures x.k.Valid()
  {
    forall s | x.k.keyIv(s).Some?
      ensures |x.k.keyIv(s).value.1| == Aead.IV_SIZE
    {
      assert x.k.keyIv(s) == t.KeyIv(s);
    }
  }

  /** With derived keys nothing is left to assume about keys: over every run, delivery is in order and
      authentic both ways and no nonce is used twice. */
  lemma DerivedRuns(t: Tree, x: Channel.Ctx, ws: seq<Delivery.World>, es: seq<Delivery.Event>)
    returns (toResponder: seq<nat>, toRequester: seq<nat>)
    requires t.Valid() && t.Derives(x) && x.c.Correct() && x.base.Valid() && Delivery.Steps(x, ws, es)
    ensures Delivery.InOrder(ws[|es|].req, ws[|es|].rsp, toResponder)
    ensures Delivery.InOrder(ws[|es|].rsp, ws[|es|].req, toRequester)
    ensures Delivery.NoncesFresh(ws[|es|].req, ws[|es|].rsp) && Delivery.NoncesFresh(ws[|es|].rsp, ws[|es|].req)
  {
    DerivedKeysDistinct(t, x);
    DerivedScheduleValid(t, x);
    toResponder, toRequester := Delivery.OrderedDelivery(x, ws, es);
    Delivery.NonceFreshness(x, ws, es);
  }
}
