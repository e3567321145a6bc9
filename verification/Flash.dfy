/** The four configuration records of src/config.rs in their fixed flash slots. */
module Flash {
  import opened Bytes
  import opened Text
  import Hex
  import Auth
  import Base64
  import Pinning

  const WIFI_MAGIC: nat := 0xC0F1_6001
  const DEVICE_MAGIC: nat := 0xDE71_CE01
  const AUTOCONN_MAGIC: nat := 0xAC0C_0002
  const URL_MAX: nat := 256

  datatype WifiConfig = WifiConfig(magic: nat, ssid: seq<byte>, ssidLen: byte, password: seq<byte>, passwordLen: byte)

  datatype DeviceConfig = DeviceConfig(magic: nat, name: seq<byte>, nameLen: byte, baud: nat)

  datatype AutoConnectConfig = AutoConnectConfig(magic: nat, enable: byte, urlLen: nat, url: seq<byte>)

  datatype Record =
    | Wifi(w: WifiConfig)
    | Device(d: DeviceConfig)
    | AutoConnect(a: AutoConnectConfig)
    | Login(c: Auth.Credentials)

  /** The sizes and ranges that the Rust field types guarantee. */
  predicate Typed(r: Record)
  {
    match r
    case Wifi(w) => w.magic < U32 && |w.ssid| == 32 && |w.password| == 64
    case Device(d) => d.magic < U32 && |d.name| == 32 && d.baud < U32
    case AutoConnect(a) => a.magic < U32 && a.urlLen < 65536 && |a.url| == URL_MAX
    case Login(c) => c.magic < U32 && Auth.Shaped(c) && c.hasPass < 256
  }

  /** `is_valid`. */
  predicate Valid(r: Record)
  {
    match r
    case Wifi(w) => w.magic == WIFI_MAGIC && w.ssidLen > 0
    case Device(d) => d.magic == DEVICE_MAGIC && d.nameLen > 0
    case AutoConnect(a) => a.magic == AUTOCONN_MAGIC
    case Login(c) => c.magic == Auth.AUTH_CONFIG_MAGIC
  }

  // ---- Setters ----------------------------------------------------------------------------------

  function Clip(s: seq<byte>, n: nat): (r: seq<byte>)
    ensures |r| <= n && (|s| <= n ==> r == s)
  {
    if |s| <= n then s else s[..n]
  }

  /** Overwrite the front of a fixed-size field. */
  function Over(field: seq<byte>, s: seq<byte>): (r: seq<byte>)
    requires |s| <= |field|
    ensures |r| == |field| && r[..|s|] == s
  {
    s + field[|s|..]
  }

  function SetWifi(w: WifiConfig, ssid: seq<byte>, password: seq<byte>): WifiConfig
    requires |w.ssid| == 32 && |w.password| == 64
  {
    var s, p := Clip(ssid, 32), Clip(password, 64);
    WifiConfig(WIFI_MAGIC, Over(w.ssid, s), |s|, Over(w.password, p), |p|)
  }

  function SetDevice(d: DeviceConfig, name: seq<byte>, baud: nat): DeviceConfig
    requires |d.name| == 32
  {
    var n := Clip(name, 32);
    DeviceConfig(DEVICE_MAGIC, Over(d.name, n), |n|, baud)
  }

  function SetAutoConnect(a: AutoConnectConfig, enable: bool, url: seq<byte>): AutoConnectConfig
    requires |a.url| == URL_MAX
  {
    var u := Clip(url, URL_MAX);
    AutoConnectConfig(AUTOCONN_MAGIC, if enable then 1 else 0, |u|, Over(a.url, u))
  }

  /** `url_str`. */
  function UrlStr(a: AutoConnectConfig): seq<byte>
    requires |a.url| == URL_MAX
  {
    var n := if a.urlLen < URL_MAX then a.urlLen else URL_MAX;
    if IsUtf8(a.url[..n]) then a.url[..n] else []
  }

  const DEFAULT_NAME: seq<byte> := Ascii("espcan-br")

  /** `ssid_str`, `password_str`, `name_str`, `baud`, `enabled`. */
  function SsidStr(w: WifiConfig): seq<byte>
    requires w.ssidLen <= |w.ssid|
  {
    w.ssid[..w.ssidLen]
  }

  function PasswordStr(w: WifiConfig): seq<byte>
    requires w.passwordLen <= |w.password|
  {
    w.password[..w.passwordLen]
  }

  function NameStr(d: DeviceConfig): seq<byte>
    requires d.nameLen <= |d.name|
  {
    if d.nameLen == 0 then DEFAULT_NAME else d.name[..d.nameLen]
  }

  function Baud(d: DeviceConfig): nat { if d.baud == 0 then 115_200 else d.baud }

  predicate Enabled(a: AutoConnectConfig) { a.enable != 0 && a.urlLen > 0 }

  /** A record built by a setter is valid exactly when its key field is not empty (always, for
      the auto-connect and login records). */
  lemma SettersValid(w: WifiConfig, ssid: seq<byte>, password: seq<byte>, d: DeviceConfig, name: seq<byte>, baud: nat,
                     a: AutoConnectConfig, enable: bool, url: seq<byte>)
    requires Typed(Wifi(w)) && Typed(Device(d)) && Typed(AutoConnect(a)) && baud < U32
    ensures Typed(Wifi(SetWifi(w, ssid, password))) && (Valid(Wifi(SetWifi(w, ssid, password))) <==> ssid != [])
    ensures Typed(Device(SetDevice(d, name, baud))) && (Valid(Device(SetDevice(d, name, baud))) <==> name != [])
    ensures Typed(AutoConnect(SetAutoConnect(a, enable, url))) && Valid(AutoConnect(SetAutoConnect(a, enable, url)))
  {
  }

  /** `s`, cut to `n` bytes. */
  predicate IsCut(r: seq<byte>, s: seq<byte>, n: nat)
  {
    r == if |s| <= n then s else s[..n]
  }

  /** The fields of a Wi-Fi or device record read back as they were set, cut to their size; an empty
      name or a zero baud rate reads as the default. */
  lemma FieldsReadBack(w: WifiConfig, ssid: seq<byte>, password: seq<byte>, d: DeviceConfig, name: seq<byte>, baud: nat)
    requires Typed(Wifi(w)) && Typed(Device(d))
    ensures var x := SetWifi(w, ssid, password);
            && x.magic == 0xC0F1_6001 && x.ssidLen <= 32 && x.passwordLen <= 64 && |x.ssid| == 32 && |x.password| == 64
            && IsCut(SsidStr(x), ssid, 32) && IsCut(PasswordStr(x), password, 64)
    ensures var y := SetDevice(d, name, baud);
            && y.magic == 0xDE71_CE01 && y.nameLen <= 32 && |y.name| == 32
            && (if name == [] then NameStr(y) == Ascii("espcan-br") else IsCut(NameStr(y), name, 32))
            && Baud(y) == if baud == 0 then 115_200 else baud
  {
  }

  /** The auto-connect record is on exactly if it was enabled with a URL; a URL of at most 256 bytes
      reads back, and a longer one is cut. */
  lemma UrlReadsBack(a: AutoConnectConfig, enable: bool, url: seq<byte>)
    requires Typed(AutoConnect(a))
    ensures var x := SetAutoConnect(a, enable, url);
            && x.magic == 0xAC0C_0002
            && (Enabled(x) <==> enable && url != []) && (x.enable != 0 <==> enable)
            && (|url| <= 256 && IsUtf8(url) ==> UrlStr(x) == url)
            && (|url| > 256 ==> UrlStr(x) == if IsUtf8(url[..256]) then url[..256] else [])
  {
    hide IsUtf8;
  }

  // ---- Bytes ------------------------------------------------------------------------------------

  function Le(n: nat, k: nat): (s: seq<byte>)
    ensures |s| == k
  {
    if k == 0 then [] else [n % 256] + Le(n / 256, k - 1)
  }

  function FromLe(s: seq<byte>): nat
  {
    if s == [] then 0 else s[0] as int + 256 * FromLe(s[1..])
  }

  function Pow256(k: nat): nat { if k == 0 then 1 else 256 * Pow256(k - 1) }

  lemma {:induction false} LeRoundTrip(n: nat, k: nat)
    requires n < Pow256(k)
    ensures FromLe(Le(n, k)) == n
  {
    if k > 0 {
      LeRoundTrip(n / 256, k - 1);
      assert Le(n, k)[1..] == Le(n / 256, k - 1);
    }
  }

  lemma Pow256Values()
    ensures Pow256(2) == 65536 && Pow256(4) == U32
  {
    assert Pow256(1) == 256;
    assert Pow256(3) == 256 * Pow256(2);
  }

  function DigestBytes(d: Auth.digest): (s: seq<byte>)
    ensures |s| == 32
  {
    seq(32, i requires 0 <= i < 32 => d[i] as int)
  }

  function BytesDigest(s: seq<byte>): Auth.digest
    requires |s| == 32
  {
    seq(32, i requires 0 <= i < 32 => s[i] as bv8)
  }

  lemma DigestRoundTrip(d: Auth.digest)
    ensures BytesDigest(DigestBytes(d)) == d
  {
    forall i | 0 <= i < 32 ensures BytesDigest(DigestBytes(d))[i] == d[i] {
      BvRoundTrip(d[i]);
    }
  }

  lemma BvRoundTrip(x: bv8)
    ensures (x as int) as bv8 == x
  {
  }

  /** `as_bytes`: the C layout of the record. */
  function Layout(r: Record): seq<byte>
    requires Typed(r)
  {
    match r
    case Wifi(w) => Le(w.magic, 4) + w.ssid + [w.ssidLen] + w.password + [w.passwordLen] + Zeros(2)
    case Device(d) => Le(d.magic, 4) + d.name + [d.nameLen] + Zeros(3) + Le(d.baud, 4)
    case AutoConnect(a) => Le(a.magic, 4) + [a.enable, 0] + Le(a.urlLen, 2) + a.url
    case Login(c) =>
      Le(c.magic, 4) + c.user + [c.userLen, c.hasPass] + Zeros(2) + c.salt + DigestBytes(c.passHash)
  }

  datatype Kind = WifiSlot | DeviceSlot | AutoConnectSlot | LoginSlot

  function KindOf(r: Record): Kind
  {
    match r
    case Wifi(_) => WifiSlot
    case Device(_) => DeviceSlot
    case AutoConnect(_) => AutoConnectSlot
    case Login(_) => LoginSlot
  }

  function Offset(k: Kind): nat
  {
    match k case WifiSlot => 0 case DeviceSlot => 128 case AutoConnectSlot => 256 case LoginSlot => 640
  }

  function Size(k: Kind): nat
  {
    match k case WifiSlot => 128 case DeviceSlot => 64 case AutoConnectSlot => 384 case LoginSlot => 128
  }

  /** `read_unaligned` at the front of a slot's buffer. */
  function Read(k: Kind, b: seq<byte>): Record
    requires |b| == Size(k)
  {
    match k
    case WifiSlot => Wifi(WifiConfig(FromLe(b[..4]), b[4..36], b[36], b[37..101], b[101]))
    case DeviceSlot => Device(DeviceConfig(FromLe(b[..4]), b[4..36], b[36], FromLe(b[40..44])))
    case AutoConnectSlot => AutoConnect(AutoConnectConfig(FromLe(b[..4]), b[4], FromLe(b[6..8]), b[8..264]))
    case LoginSlot =>
      Login(Auth.Credentials(FromLe(b[..4]), b[4..36], b[36], b[37], b[40..56], BytesDigest(b[56..88])))
  }

  /** `from_bytes`. */
  function FromBytes(k: Kind, b: seq<byte>): Option<Record>
    requires |b| == Size(k)
  {
    if Valid(Read(k, b)) then Some(Read(k, b)) else None
  }

  /** The slot image: the layout padded with zeros. */
  function Image(r: Record): (s: seq<byte>)
    requires Typed(r)
    ensures |s| == Size(KindOf(r))
  {
    Layout(r) + Zeros(Size(KindOf(r)) - |Layout(r)|)
  }

  lemma WifiImage(w: WifiConfig)
    requires Typed(Wifi(w))
    ensures var b := Image(Wifi(w));
            && b[..4] == Le(w.magic, 4) && b[4..36] == w.ssid && b[36] == w.ssidLen
            && b[37..101] == w.password && b[101] == w.passwordLen
  {
    hide Le;
  }

  lemma ReadWifi(w: WifiConfig)
    requires Typed(Wifi(w))
    ensures Read(WifiSlot, Image(Wifi(w))) == Wifi(w)
  {
    hide Le, FromLe, Image;
    Pow256Values();
    LeRoundTrip(w.magic, 4);
    WifiImage(w);
  }

  lemma DeviceImage(d: DeviceConfig)
    requires Typed(Device(d))
    ensures var b := Image(Device(d));
            && b[..4] == Le(d.magic, 4) && b[4..36] == d.name && b[36] == d.nameLen && b[40..44] == Le(d.baud, 4)
  {
    hide Le;
  }

  lemma ReadDevice(d: DeviceConfig)
    requires Typed(Device(d))
    ensures Read(DeviceSlot, Image(Device(d))) == Device(d)
  {
    hide Le, FromLe, Image;
    Pow256Values();
    LeRoundTrip(d.magic, 4);
    LeRoundTrip(d.baud, 4);
    DeviceImage(d);
  }

  lemma AutoConnectImage(a: AutoConnectConfig)
    requires Typed(AutoConnect(a))
    ensures var b := Image(AutoConnect(a));
            && b[..4] == Le(a.magic, 4) && b[4] == a.enable && b[6..8] == Le(a.urlLen, 2) && b[8..264] == a.url
  {
    hide Le;
  }

  lemma ReadAutoConnect(a: AutoConnectConfig)
    requires Typed(AutoConnect(a))
    ensures Read(AutoConnectSlot, Image(AutoConnect(a))) == AutoConnect(a)
  {
    hide Le, FromLe, Image;
    Pow256Values();
    LeRoundTrip(a.magic, 4);
    LeRoundTrip(a.urlLen, 2);
    AutoConnectImage(a);
  }

  lemma LoginImage(l: Auth.Credentials)
    requires Typed(Login(l))
    ensures var b := Image(Login(l));
            && b[..4] == Le(l.magic, 4) && b[4..36] == l.user && b[36] == l.userLen && b[37] == l.hasPass
            && b[40..56] == l.salt && b[56..88] == DigestBytes(l.passHash)
  {
    hide Le, DigestBytes;
  }

  lemma ReadLogin(c: Auth.Credentials)
    requires Typed(Login(c))
    ensures Read(LoginSlot, Image(Login(c))) == Login(c)
  {
    hide Le, FromLe, DigestBytes, BytesDigest, Image;
    Pow256Values();
    LeRoundTrip(c.magic, 4);
    DigestRoundTrip(c.passHash);
    LoginImage(c);
  }

  lemma ReadImage(r: Record)
    requires Typed(r)
    ensures Read(KindOf(r), Image(r)) == r
  {
    hide Read, Image;
    match r
    case Wifi(w) => ReadWifi(w);
    case Device(d) => ReadDevice(d);
    case AutoConnect(a) => ReadAutoConnect(a);
    case Login(c) => ReadLogin(c);
  }

  // ---- The store --------------------------------------------------------------------------------

  /** The part of the partition that the four slots span. */
  const SPAN: nat := 768

  function Written(cells: seq<byte>, r: Record): (s: seq<byte>)
    requires |cells| >= SPAN && Typed(r)
    ensures |s| == |cells|
  {
    var at, n := Offset(KindOf(r)), Size(KindOf(r));
    cells[..at] + Image(r) + cells[at + n..]
  }

  function Loaded(cells: seq<byte>, k: Kind): Option<Record>
    requires |cells| >= SPAN
  {
    FromBytes(k, cells[Offset(k)..Offset(k) + Size(k)])
  }

  lemma LeFour(n: nat)
    requires n < U32
    ensures var s := Le(n, 4);
            s[0] as int + 0x100 * s[1] as int + 0x1_0000 * s[2] as int + 0x100_0000 * s[3] as int == n
  {
    assert Le(n, 4)[1..] == Le(n / 256, 3);
    assert Le(n / 256, 3)[1..] == Le(n / 256 / 256, 2);
    assert Le(n / 256 / 256, 2)[1..] == Le(n / 256 / 256 / 256, 1);
  }

  lemma LeTwo(n: nat)
    requires n < 65536
    ensures var s := Le(n, 2); s[0] as int + 0x100 * s[1] as int == n
  {
    assert Le(n, 2)[1..] == Le(n / 256, 1);
  }

  /** The four bytes at `at` hold `n`, least significant first. */
  predicate Holds(cells: seq<byte>, at: nat, n: nat)
  {
    && at + 4 <= |cells|
    && cells[at] as int + 0x100 * cells[at + 1] as int + 0x1_0000 * cells[at + 2] as int + 0x100_0000 * cells[at + 3] as int == n
  }

  /** Where every field of a saved record is in the partition. */
  predicate Placed(cells: seq<byte>, r: Record)
    requires |cells| >= 768
  {
    match r
    case Wifi(w) =>
      && Holds(cells, 0, w.magic) && cells[4..36] == w.ssid && cells[36] == w.ssidLen
      && cells[37..101] == w.password && cells[101] == w.passwordLen
    case Device(d) =>
      && Holds(cells, 128, d.magic) && cells[132..164] == d.name && cells[164] == d.nameLen && Holds(cells, 168, d.baud)
    case AutoConnect(a) =>
      && Holds(cells, 256, a.magic) && cells[260] == a.enable && cells[262] as int + 0x100 * cells[263] as int == a.urlLen
      && cells[264..520] == a.url
    case Login(c) =>
      && Holds(cells, 640, c.magic) && cells[644..676] == c.user && cells[676] == c.userLen && cells[677] == c.hasPass
      && cells[680..696] == c.salt && forall i :: 0 <= i < 32 ==> cells[696 + i] == c.passHash[i] as int
  }

  lemma SavedPlaces(cells: seq<byte>, r: Record)
    requires |cells| >= SPAN && Typed(r)
    ensures Placed(Written(cells, r), r)
  {
    hide Le, Placed, Layout, Written;
    match r
    case Wifi(w) => WifiPlaced(cells, w);
    case Device(d) => DevicePlaced(cells, d);
    case AutoConnect(a) => AutoConnectPlaced(cells, a);
    case Login(c) => LoginPlaced(cells, c);
  }

  /** The slot of the partition is the image. */
  lemma InSlot(cells: seq<byte>, r: Record)
    requires |cells| >= SPAN && Typed(r)
    ensures var at, n := Offset(KindOf(r)), Size(KindOf(r));
            at + n <= |cells| && Written(cells, r)[at..at + n] == Image(r)
  {
    hide Image;
  }

  lemma HoldsLe(c: seq<byte>, at: nat, n: nat)
    requires n < U32 && at + 4 <= |c| && c[at..at + 4] == Le(n, 4)
    ensures Holds(c, at, n)
  {
    hide Le;
    LeFour(n);
    var m := c[at..at + 4];
    assert c[at] == m[0] && c[at + 1] == m[1] && c[at + 2] == m[2] && c[at + 3] == m[3];
  }

  lemma WifiPlaced(cells: seq<byte>, w: WifiConfig)
    requires |cells| >= SPAN && Typed(Wifi(w))
    ensures Placed(Written(cells, Wifi(w)), Wifi(w))
  {
    hide Le, Image, Holds, Written;
    var c := Written(cells, Wifi(w));
    InSlot(cells, Wifi(w));
    WifiImage(w);
    Within(c, 0, 128, 0, 4);
    Within(c, 0, 128, 4, 36);
    Within(c, 0, 128, 37, 101);
    HoldsLe(c, 0, w.magic);
    assert c[0..128][36] == c[36] && c[0..128][101] == c[101];
  }

  lemma DevicePlaced(cells: seq<byte>, d: DeviceConfig)
    requires |cells| >= SPAN && Typed(Device(d))
    ensures Placed(Written(cells, Device(d)), Device(d))
  {
    hide Le, Image, Holds, Written;
    var c := Written(cells, Device(d));
    InSlot(cells, Device(d));
    DeviceImage(d);
    Within(c, 128, 64, 0, 4);
    Within(c, 128, 64, 4, 36);
    Within(c, 128, 64, 40, 44);
    HoldsLe(c, 128, d.magic);
    HoldsLe(c, 168, d.baud);
    assert c[128..192][36] == c[164];
  }

  lemma AutoConnectPlaced(cells: seq<byte>, a: AutoConnectConfig)
    requires |cells| >= SPAN && Typed(AutoConnect(a))
    ensures Placed(Written(cells, AutoConnect(a)), AutoConnect(a))
  {
    hide Le, Image, Holds, Written;
    var c := Written(cells, AutoConnect(a));
    InSlot(cells, AutoConnect(a));
    AutoConnectImage(a);
    Within(c, 256, 384, 0, 4);
    Within(c, 256, 384, 6, 8);
    Within(c, 256, 384, 8, 264);
    HoldsLe(c, 256, a.magic);
    LeTwo(a.urlLen);
    assert c[256..640][4] == c[260] && c[262..264][0] == c[262] && c[262..264][1] == c[263];
  }

  lemma LoginPlaced(cells: seq<byte>, l: Auth.Credentials)
    requires |cells| >= SPAN && Typed(Login(l))
    ensures Placed(Written(cells, Login(l)), Login(l))
  {
    hide Le, DigestBytes, Image, Holds, Written;
    var c := Written(cells, Login(l));
    InSlot(cells, Login(l));
    LoginImage(l);
    Within(c, 640, 128, 0, 4);
    Within(c, 640, 128, 4, 36);
    Within(c, 640, 128, 40, 56);
    Within(c, 640, 128, 56, 88);
    HoldsLe(c, 640, l.magic);
    assert c[640..768][36] == c[676] && c[640..768][37] == c[677];
    forall i | 0 <= i < 32 ensures c[696 + i] == l.passHash[i] as int {
      assert c[696..728][i] == c[696 + i];
      DigestAt(l.passHash, i);
    }
  }

  lemma DigestAt(d: Auth.digest, i: nat)
    requires i < 32
    ensures DigestBytes(d)[i] == d[i] as int
  {
  }

  /** A load after a save of its own kind returns the record exactly when it is valid. */
  lemma LoadSaved(cells: seq<byte>, r: Record)
    requires |cells| >= SPAN && Typed(r)
    ensures Loaded(Written(cells, r), KindOf(r)) == if Valid(r) then Some(r) else None
  {
    hide Image, Read;
    var k := KindOf(r);
    assert Written(cells, r)[Offset(k)..Offset(k) + Size(k)] == Image(r);
    ReadImage(r);
  }

  lemma FromLeFour(s: seq<byte>)
    requires |s| == 4
    ensures FromLe(s) == s[0] as int + 0x100 * s[1] as int + 0x1_0000 * s[2] as int + 0x100_0000 * s[3] as int
  {
    assert s[1..][1..] == s[2..] && s[2..][1..] == s[3..] && s[3..][1..] == [];
    assert FromLe(s[3..]) == s[3] as int;
    assert FromLe(s[2..]) == s[2] as int + 256 * FromLe(s[3..]);
    assert FromLe(s[1..]) == s[1] as int + 256 * FromLe(s[2..]);
  }

  lemma HoldsFromLe(cells: seq<byte>, at: nat, size: nat)
    requires size >= 4 && at + size <= |cells|
    ensures Holds(cells, at, FromLe(cells[at..at + size][..4]))
  {
    FromLeFour(cells[at..at + size][..4]);
  }

  /** When a load finds a record at all: its magic number stands in its place, and the name of the
      network or device is not empty. Erased flash holds none. */
  lemma LoadedIff(cells: seq<byte>)
    requires |cells| >= SPAN
    ensures Loaded(cells, WifiSlot).Some? <==> Holds(cells, 0, 0xC0F1_6001) && cells[36] > 0
    ensures Loaded(cells, DeviceSlot).Some? <==> Holds(cells, 128, 0xDE71_CE01) && cells[164] > 0
    ensures Loaded(cells, AutoConnectSlot).Some? <==> Holds(cells, 256, 0xAC0C_0002)
    ensures Loaded(cells, LoginSlot).Some? <==> Holds(cells, 640, 0xA071_0101)
  {
    hide FromLe, BytesDigest;
    HoldsFromLe(cells, 0, 128);
    HoldsFromLe(cells, 128, 64);
    HoldsFromLe(cells, 256, 384);
    HoldsFromLe(cells, 640, 128);
  }

  /** A save disturbs no other slot. */
  lemma LoadOther(cells: seq<byte>, r: Record, k: Kind)
    requires |cells| >= SPAN && Typed(r) && k != KindOf(r)
    ensures Loaded(Written(cells, r), k) == Loaded(cells, k)
  {
    hide Image, Read;
    var o, n := Offset(k), Size(k);
    assert o + n <= Offset(KindOf(r)) || Offset(KindOf(r)) + Size(KindOf(r)) <= o;
    Elsewhere(cells, Image(r), Offset(KindOf(r)), o, n);
  }

  lemma Elsewhere(cells: seq<byte>, x: seq<byte>, at: nat, o: nat, n: nat)
    requires at + |x| <= |cells| && o + n <= |cells| && (o + n <= at || at + |x| <= o)
    ensures (cells[..at] + x + cells[at + |x|..])[o..o + n] == cells[o..o + n]
  {
    var s := cells[..at] + x + cells[at + |x|..];
    forall i | o <= i < o + n ensures s[i] == cells[i] {
    }
  }

  function AfterSaves(cells: seq<byte>, saves: seq<Record>): (s: seq<byte>)
    requires |cells| >= SPAN && forall i :: 0 <= i < |saves| ==> Typed(saves[i])
    ensures |s| == |cells|
  {
    if saves == [] then cells else Written(AfterSaves(cells, saves[..|saves| - 1]), saves[|saves| - 1])
  }

  function LastOf(saves: seq<Record>, k: Kind): Option<Record>
  {
    if saves == [] then None
    else if KindOf(saves[|saves| - 1]) == k then Some(saves[|saves| - 1])
    else LastOf(saves[..|saves| - 1], k)
  }

  /** After any history of saves, each load returns the last saved record of its own kind if
      that record is valid (nothing if it is not), and what was there before if none was saved. */
  lemma {:induction false} LoadAfterHistory(cells: seq<byte>, saves: seq<Record>, k: Kind)
    requires |cells| >= SPAN && forall i :: 0 <= i < |saves| ==> Typed(saves[i])
    ensures Loaded(AfterSaves(cells, saves), k) ==
            match LastOf(saves, k)
            case None => Loaded(cells, k)
            case Some(r) => if Valid(r) then Some(r) else None
  {
    hide Loaded, Written, Valid;
    if saves != [] {
      var init, last := saves[..|saves| - 1], saves[|saves| - 1];
      if KindOf(last) == k {
        LoadSaved(AfterSaves(cells, init), last);
      } else {
        LoadAfterHistory(cells, init, k);
        LoadOther(AfterSaves(cells, init), last, k);
      }
    }
  }

  /** The data partition. */
  class Nvs {
    const cells: array<byte>

    constructor (size: nat)
      requires size >= SPAN
      ensures cells.Length == size && fresh(cells)
    {
      cells := new byte[size](_ => 0xFF);
    }

    /** The four `save` functions: copy the record into a zeroed slot buffer and write it. */
    method Save(r: Record)
      requires cells.Length >= SPAN && Typed(r)
      modifies cells
      ensures cells[..] == Written(old(cells[..]), r)
    {
      hide Layout;
      var bytes, at, n := Layout(r), Offset(KindOf(r)), Size(KindOf(r));
      LayoutFits(r);
      var aligned := new byte[n](_ => 0);
      forall j | 0 <= j < |bytes| {
        aligned[j] := bytes[j];
      }
      assert aligned[..] == Image(r);
      forall j | 0 <= j < n {
        cells[at + j] := aligned[j];
      }
      assert cells[..] == old(cells[..at]) + aligned[..] + old(cells[at + n..]);
    }

    /** The four `load` functions. */
    method Load(k: Kind) returns (r: Option<Record>)
      requires cells.Length >= SPAN
      ensures r == Loaded(cells[..], k)
    {
      hide Read;
      var buf := cells[Offset(k)..Offset(k) + Size(k)];
      assert buf == cells[..][Offset(k)..Offset(k) + Size(k)];
      r := FromBytes(k, buf);
    }
  }

  lemma LayoutFits(r: Record)
    requires Typed(r)
    ensures |Layout(r)| <= Size(KindOf(r))
  {
  }

  // ---- Across a reboot --------------------------------------------------------------------------

  /** Credentials posted through the form, saved, and loaded after a reboot still open the web
      interface to a request that sends them. */
  lemma LoginSurvivesReboot(
      cells: seq<byte>, user: seq<byte>, pass: seq<byte>, userText: seq<byte>, passText: seq<byte>, more: seq<byte>,
      salt: seq<byte>, hash: Auth.Hash, before: seq<seq<byte>>, line: seq<byte>, pad: nat, rest: seq<byte>)
    requires |cells| >= SPAN
    requires IsUtf8(user) && IsUtf8(pass) && COLON !in user
    requires 1 <= |user| <= 32 && 1 <= |pass| <= 64
    requires Auth.Encodes(userText, user) && Auth.Encodes(passText, pass) && (more == [] || more[0] == AMP)
    requires |salt| == 16 && Auth.NoToken(before)
    requires Auth.AuthLine(line, Base64.EncodeText(user + [':' as int] + pass, pad)) && LF !in line
    ensures var c := Auth.SaveAuth(Auth.Form(userText, passText, more), salt, hash);
            && c.Some? && Typed(Login(c.value))
            && Loaded(Written(cells, Login(c.value)), LoginSlot) == Some(Login(c.value))
            && Auth.IsSet(c.value)
            && Auth.Authorized(Auth.RequestWith(before, line, rest), c.value, false, hash)
  {
    hide Loaded, Written, Auth.Authorized, Auth.Encodes, Auth.SaveAuth, Auth.Form, Auth.AuthLine, Auth.NoToken,
         Base64.EncodeText, IsUtf8, Typed, Valid;
    Auth.CredentialsAccepted(user, pass, userText, passText, more, salt, hash, before, line, pad, rest);
    var c := Auth.SaveAuth(Auth.Form(userText, passText, more), salt, hash).value;
    SavedIsTyped(Auth.Form(userText, passText, more), salt, hash);
    LoadSaved(cells, Login(c));
  }

  lemma SavedIsTyped(body: seq<byte>, salt: seq<byte>, hash: Auth.Hash)
    requires |salt| == 16 && Auth.SaveAuth(body, salt, hash).Some?
    ensures var r := Login(Auth.SaveAuth(body, salt, hash).value); Typed(r) && Valid(r)
  {
    hide Auth.FormValue, Auth.UrlDecoded;
  }

  predicate AllAscii(s: seq<byte>)
  {
    forall i :: 0 <= i < |s| ==> s[i] < 0x80
  }

  /** The text between host and token. */
  function Middle(port: seq<byte>, slashes: nat, key: seq<byte>): seq<byte>
  {
    Ascii(":") + port + seq(slashes, _ => '/' as int) + Ascii("?pubkey=") + Hex.HexBytes(key)
  }

  lemma MiddleIsAscii(port: seq<byte>, slashes: nat, key: seq<byte>)
    requires ParseUnsigned(port, 65536).Some?
    ensures AllAscii(Middle(port, slashes, key))
  {
    hide Hex.HexBytes, ParseUnsigned;
    Hex.UnhexOfHex(key);
    var hex := Hex.HexBytes(key);
    assert AllAscii(hex) by {
      forall i | 0 <= i < |hex| ensures hex[i] < 0x80 {
        assert Hex.IsHex(hex[i]);
      }
    }
    assert AllAscii(port) by {
      var d := DropPlus(port);
      forall i | 0 <= i < |port| ensures port[i] < 0x80 {
        assert port[i] == '+' as int || IsDigit(port[i]);
      }
    }
  }

  lemma WrittenParts(host: seq<byte>, port: seq<byte>, slashes: nat, key: seq<byte>, token: Option<seq<byte>>)
    ensures Pinning.Written(host, port, slashes, key, token)
         == Ascii("tls://") + host + Middle(port, slashes, key) + (if token.Some? then Ascii("&token=") + token.value else [])
  {
    hide Hex.HexBytes, Ascii;
    assert Ascii("tls") + Ascii("://") == Ascii("tls://") && Ascii("?") + Ascii("pubkey=") == Ascii("?pubkey=") by { Joined(); }
  }

  lemma Joined()
    ensures Ascii("tls") + Ascii("://") == Ascii("tls://") && Ascii("?") + Ascii("pubkey=") == Ascii("?pubkey=")
  {
  }

  lemma UrlIsUtf8(host: seq<byte>, port: seq<byte>, slashes: nat, key: seq<byte>, token: Option<seq<byte>>)
    requires Pinning.Fields(host, port, token) && IsUtf8(host) && (token.Some? ==> IsUtf8(token.value))
    ensures IsUtf8(Pinning.Written(host, port, slashes, key, token))
  {
    hide IsUtf8, Middle, Pinning.Written;
    WrittenParts(host, port, slashes, key, token);
    MiddleIsAscii(port, slashes, key);
    AsciiIsUtf8(Ascii("tls://"));
    AsciiIsUtf8(Middle(port, slashes, key));
    Utf8Concat(Ascii("tls://"), host);
    Utf8Concat(Ascii("tls://") + host, Middle(port, slashes, key));
    var front := Ascii("tls://") + host + Middle(port, slashes, key);
    if token.Some? {
      AsciiIsUtf8(Ascii("&token="));
      Utf8Concat(Ascii("&token="), token.value);
      Utf8Concat(front, Ascii("&token=") + token.value);
    } else {
      assert front + [] == front;
    }
  }

  /** The key shown after a connection, pasted into a URL of at most 256 bytes, saved and
      loaded after a reboot, pins exactly that server. */
  lemma PinSurvivesReboot(cells: seq<byte>, a: AutoConnectConfig, der: seq<byte>, key: seq<byte>, host: seq<byte>,
                          port: seq<byte>, slashes: nat, token: Option<seq<byte>>)
    requires |cells| >= SPAN && Typed(AutoConnect(a))
    requires Pinning.Carries(der, key) && Pinning.Fields(host, port, token)
    requires IsUtf8(host) && (token.Some? ==> IsUtf8(token.value))
    requires |Pinning.Written(host, port, slashes, key, token)| <= 256
    ensures var url := Pinning.Written(host, port, slashes, key, token);
            var r := AutoConnect(SetAutoConnect(a, true, url));
            && Typed(r) && Loaded(Written(cells, r), AutoConnectSlot) == Some(r)
            && var parsed := Pinning.UrlOf(UrlStr(r.a));
               parsed.Some? && Pinning.PinOf(parsed.value) == Some(Some(key)) && Pinning.ExtractKey(der) == Some(key)
  {
    hide Loaded, Written, Pinning.UrlOf, Pinning.PinOf, Pinning.Written, IsUtf8, Pinning.ExtractKey, Pinning.Carries;
    var url := Pinning.Written(host, port, slashes, key, token);
    UrlIsUtf8(host, port, slashes, key, token);
    Pinning.ShownKeyPins(der, key, host, port, slashes, token);
    var r := AutoConnect(SetAutoConnect(a, true, url));
    LoadSaved(cells, r);
  }
}
