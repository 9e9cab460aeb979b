/**
 The description of an IIO context as XML, `iio_init_xml` of iio/iio.c and its two generators.

 The same generators run twice, first over no buffer to count, then over a buffer of the size that was
 counted.  The second pass is proved to write every piece in full, in a buffer that fits exactly.
 */
module IioXml {
  import opened Basics
  import opened Decimal
  import opened Errno
  import opened Sequences

  datatype Shared = Separate | ByType | ByDir | ByAll

  datatype Attribute = Attribute(name: string, shared: Shared)

  datatype ScanType = ScanType(sign: char, realbits: nat, storagebits: nat, shift: nat, isBigEndian: bool)

  /** struct iio_channel, its type and modifier given by their names. */
  datatype Channel = Channel(name: Option<string>, chType: string, modifier: string, channel: int, channel2: int,
                             scanIndex: int, scanType: Option<ScanType>, attributes: seq<Attribute>,
                             chOut: bool, modified: bool, indexed: bool, diferential: bool)

  datatype Device = Device(channels: seq<Channel>, attributes: seq<string>, debugAttributes: seq<string>,
                           bufferAttributes: seq<string>, regAccess: bool)

  datatype Named = Named(id: string, name: string, device: Device)

  datatype ContextAttribute = ContextAttribute(name: string, value: string)

  /** struct iio_desc, as far as it is described; a trigger is a device with attributes only. */
  datatype Context = Context(attributes: seq<ContextAttribute>, devices: seq<Named>, triggers: seq<Named>)

  const HEADER_END := "</context>"

  /* ---------- The text ---------- */

  function ChannelId(ch: Channel): string {
    if ch.modified then ch.chType + "_" + ch.modifier
    else if !ch.indexed then ch.chType
    else if ch.diferential then ch.chType + Dec(ch.channel) + "-" + ch.chType + Dec(ch.channel2)
    else ch.chType + Dec(ch.channel)
  }

  function Direction(ch: Channel): string {
    if ch.chOut then "out" else "in"
  }

  /** A differential channel must be indexed to have attributes of its own. */
  predicate AttributeOk(ch: Channel, a: Attribute) {
    ch.diferential && a.shared == Separate ==> ch.indexed
  }

  function FileName(ch: Channel, a: Attribute): string {
    match a.shared
    case ByAll => a.name
    case ByDir => Direction(ch) + "_" + a.name
    case ByType =>
      Direction(ch) + "_" + (if ch.diferential then ch.chType + "-" + ch.chType else ch.chType) + "_" + a.name
    case Separate =>
      Direction(ch) + "_"
      + (if ch.diferential then ch.chType + Dec(ch.channel) + "-" + ch.chType + Dec(ch.channel2)
         else if ch.indexed then ch.chType + Dec(ch.channel) else ch.chType)
      + "_" + a.name
  }

  function AttributeXml(ch: Channel, a: Attribute): string {
    "<attribute name=\"" + a.name + "\" " + ("filename=\"" + FileName(ch, a) + "\"") + " />"
  }

  function AttributesXml(ch: Channel, n: nat): string
    requires n <= |ch.attributes|
  {
    if n == 0 then "" else AttributesXml(ch, n - 1) + AttributeXml(ch, ch.attributes[n - 1])
  }

  function ScanXml(index: int, s: ScanType): string {
    "<scan-element index=\"" + Dec(index) + "\" format=\"" + (if s.isBigEndian then "be" else "le") + ":" + [s.sign]
    + Dec(s.realbits) + "/" + Dec(s.storagebits) + ">>" + Dec(s.shift) + "\" />"
  }

  function ChannelHead(ch: Channel): string {
    "<channel id=\"" + ChannelId(ch) + "\"" + (if ch.name == None then "" else " name=\"" + ch.name.value + "\"")
    + (" type=\"" + (if ch.chOut then "output" else "input") + "\" >")
    + if ch.scanType == None then "" else ScanXml(ch.scanIndex, ch.scanType.value)
  }

  function ChannelXml(ch: Channel): string {
    ChannelHead(ch) + AttributesXml(ch, |ch.attributes|) + "</channel>"
  }

  function ChannelsXml(channels: seq<Channel>, n: nat): string
    requires n <= |channels|
  {
    if n == 0 then "" else ChannelsXml(channels, n - 1) + ChannelXml(channels[n - 1])
  }

  /** Elements of one kind, each with a name. */
  function NamesXml(kind: string, names: seq<string>, n: nat): string
    requires n <= |names|
  {
    if n == 0 then "" else NamesXml(kind, names, n - 1) + NameXml(kind, names[n - 1])
  }

  function NameXml(kind: string, name: string): string {
    "<" + kind + " name=\"" + name + "\" />"
  }

  function DeviceXml(d: Named): string {
    "<device id=\"" + d.id + "\" name=\"" + d.name + "\">"
    + ChannelsXml(d.device.channels, |d.device.channels|)
    + NamesXml("attribute", d.device.attributes, |d.device.attributes|)
    + NamesXml("debug-attribute", d.device.debugAttributes, |d.device.debugAttributes|)
    + (if d.device.regAccess then NameXml("debug-attribute", "direct_reg_access") else "")
    + NamesXml("buffer-attribute", d.device.bufferAttributes, |d.device.bufferAttributes|)
    + "</device>"
  }

  predicate ChannelOk(ch: Channel) {
    forall k :: 0 <= k < |ch.attributes| ==> AttributeOk(ch, ch.attributes[k])
  }

  predicate DeviceOk(d: Named) {
    forall j :: 0 <= j < |d.device.channels| ==> ChannelOk(d.device.channels[j])
  }

  function DevicesXml(devices: seq<Named>, n: nat): string
    requires n <= |devices|
  {
    if n == 0 then "" else DevicesXml(devices, n - 1) + DeviceXml(devices[n - 1])
  }

  function ContextAttributesXml(attributes: seq<ContextAttribute>, n: nat): string
    requires n <= |attributes|
  {
    if n == 0 then ""
    else
      ContextAttributesXml(attributes, n - 1)
      + ("<context-attribute name=\"" + attributes[n - 1].name + "\" ")
      + ("value=\"" + attributes[n - 1].value + "\" />")
  }

  /** The whole description. */
  function ContextXml(header: string, c: Context): string {
    header + ContextAttributesXml(c.attributes, |c.attributes|) + DevicesXml(c.devices, |c.devices|)
    + DevicesXml(c.triggers, |c.triggers|) + HEADER_END
  }

  predicate ContextOk(c: Context) {
    && (forall i :: 0 <= i < |c.devices| ==> DeviceOk(c.devices[i]))
    && (forall i :: 0 <= i < |c.triggers| ==> DeviceOk(c.triggers[i]))
  }

  /** What the counting pass adds up: the error number of a device that cannot be described is taken for
      a length, and its unsigned form wraps around. */
  function Counted(d: Named): int {
    if DeviceOk(d) then |DeviceXml(d)| else -EINVAL
  }

  function CountedDevices(devices: seq<Named>, n: nat): int
    requires n <= |devices|
  {
    if n == 0 then 0 else CountedDevices(devices, n - 1) + Counted(devices[n - 1])
  }

  function CountedXml(header: string, c: Context): int {
    |header| + |HEADER_END| + |ContextAttributesXml(c.attributes, |c.attributes|)|
    + CountedDevices(c.devices, |c.devices|) + CountedDevices(c.triggers, |c.triggers|)
  }

  predicate AllOk(devices: seq<Named>, n: nat)
    requires n <= |devices|
  {
    forall i :: 0 <= i < n ==> DeviceOk(devices[i])
  }

  /** Every device that cannot be described takes more off the count than its text has. */
  lemma {:induction false} CountedFallsShort(devices: seq<Named>, n: nat)
    requires n <= |devices|
    ensures var gap := |DevicesXml(devices, n)| - CountedDevices(devices, n);
            0 <= gap <= 2 * |DevicesXml(devices, n)| && (gap == 0 <==> AllOk(devices, n))
  {
    hide DeviceOk, DeviceXml;
    if n > 0 {
      CountedFallsShort(devices, n - 1);
      DeviceXmlIsLong(devices[n - 1]);
      assert AllOk(devices, n) <==> AllOk(devices, n - 1) && DeviceOk(devices[n - 1]);
    }
  }

  lemma DeviceXmlIsLong(d: Named)
    ensures |DeviceXml(d)| >= EINVAL
  {
    hide ChannelsXml, NamesXml, NameXml;
  }

  /** The count is the length of the description if and only if every device can be described. */
  lemma CountIsExactIff(header: string, c: Context)
    requires |ContextXml(header, c)| <= INT32_MAX
    ensures CountedXml(header, c) % UINT32_MOD == |ContextXml(header, c)| <==> ContextOk(c)
  {
    hide DeviceOk, DevicesXml, CountedDevices, ContextAttributesXml;
    CountedFallsShort(c.devices, |c.devices|);
    CountedFallsShort(c.triggers, |c.triggers|);
    assert ContextOk(c) <==> AllOk(c.devices, |c.devices|) && AllOk(c.triggers, |c.triggers|);
  }

  /** A single device that cannot be described: there is not even room for the header. */
  lemma LoneFailure(header: string, d: Named)
    requires !DeviceOk(d)
    ensures CountedXml(header, Context([], [d], [])) == |header| - 12
  {
    hide DeviceOk;
    assert [d][0] == d && CountedDevices([d], 1) == CountedDevices([d], 0) + Counted(d);
  }

  /* ---------- Writing ---------- */

  /** snprintf to `at`: at most size - 1 characters and a zero. */
  method Snprintf(buff: array<char>, at: nat, size: nat, text: string)
    requires size == 0 || at + size <= buff.Length
    modifies buff
    ensures forall k :: 0 <= k < buff.Length && !(at <= k < at + size) ==> buff[k] == old(buff[k])
    ensures forall k :: 0 <= k < |text| && k + 1 < size ==> buff[at + k] == text[k]
  {
    if size > 0 {
      var n := Min(|text|, size - 1);
      forall k | 0 <= k < n {
        buff[at + k] := text[k];
      }
      buff[at + n] := '\0';
    }
  }

  /** The part of a buffer that a generator writes to: `n` characters from `base`. */
  datatype Window = Window(buff: array<char>, base: nat, n: nat)

  ghost predicate InBounds(w: Window) {
    if w.n == 0 then w.base == 0 else w.base + w.n <= w.buff.Length
  }

  /** `s` was written, in full if there is room for it and a zero. */
  ghost predicate Holds(w: Window, s: string)
    requires InBounds(w)
    reads w.buff
  {
    |s| < w.n ==> w.buff[w.base..w.base + |s|] == s
  }

  /** What lies before the window. */
  ghost function Before(w: Window): string
    requires InBounds(w)
    reads w.buff
  {
    w.buff[..w.base]
  }

  /** One call of snprintf in a generator. */
  method Emit(w: Window, ghost sofar: string, i: nat, text: string) returns (i': nat)
    requires InBounds(w) && i == |sofar| && Holds(w, sofar)
    modifies w.buff
    ensures i' == |sofar + text| && Holds(w, sofar + text) && Before(w) == old(Before(w))
  {
    Snprintf(w.buff, w.base + i, if w.n > i then w.n - i else 0, text);
    i' := i + |text|;
    if |sofar + text| < w.n {
      assert w.buff[w.base..w.base + i] == sofar;
      assert w.buff[w.base + i..w.base + i + |text|] == text;
    }
  }

  /* ---------- The generators ---------- */

  /** iio_add_ctx_attr_in_xml. */
  method AddContextAttributes(w: Window, attributes: seq<ContextAttribute>) returns (i: nat)
    requires InBounds(w)
    modifies w.buff
    ensures var text := ContextAttributesXml(attributes, |attributes|); i == |text| && Holds(w, text)
    ensures Before(w) == old(Before(w))
  {
    hide Holds, Before;
    i := 0;
    StartsEmpty(w);
    for j := 0 to |attributes|
      invariant i == |ContextAttributesXml(attributes, j)| && Holds(w, ContextAttributesXml(attributes, j))
      invariant Before(w) == old(Before(w))
    {
      ghost var sofar := ContextAttributesXml(attributes, j);
      var name := "<context-attribute name=\"" + attributes[j].name + "\" ";
      var value := "value=\"" + attributes[j].value + "\" />";
      i := Emit(w, sofar, i, name);
      i := Emit(w, sofar + name, i, value);
    }
  }

  lemma StartsEmpty(w: Window)
    requires InBounds(w)
    ensures Holds(w, "")
  {
  }

  method AddAttributes(w: Window, ghost sofar: string, i0: nat, ch: Channel) returns (ok: bool, i: nat)
    requires InBounds(w) && i0 == |sofar| && Holds(w, sofar)
    modifies w.buff
    ensures ok == ChannelOk(ch) && Before(w) == old(Before(w))
    ensures ok ==> var text := sofar + AttributesXml(ch, |ch.attributes|); i == |text| && Holds(w, text)
  {
    hide Holds, Before, FileName;
    i := i0;
    assert sofar + "" == sofar;
    for k := 0 to |ch.attributes|
      invariant forall l :: 0 <= l < k ==> AttributeOk(ch, ch.attributes[l])
      invariant var text := sofar + AttributesXml(ch, k); i == |text| && Holds(w, text)
      invariant Before(w) == old(Before(w))
    {
      var a := ch.attributes[k];
      ghost var text := sofar + AttributesXml(ch, k);
      var opening, file := "<attribute name=\"" + a.name + "\" ", "filename=\"" + FileName(ch, a) + "\"";
      i := Emit(w, text, i, opening);
      if !AttributeOk(ch, a) {
        return false, i;
      }
      i := Emit(w, text + opening, i, file);
      i := Emit(w, text + opening + file, i, " />");
      ThreeParts(text, opening, file, " />");
      assert AttributeXml(ch, a) == opening + file + " />";
      Associative(sofar, AttributesXml(ch, k), AttributeXml(ch, a));
    }
    ok := true;
  }

  lemma ThreeParts(t: string, a: string, b: string, c: string)
    ensures t + a + b + c == t + (a + b + c)
  {
  }

  method AddChannel(w: Window, ghost sofar: string, i0: nat, ch: Channel) returns (ok: bool, i: nat)
    requires InBounds(w) && i0 == |sofar| && Holds(w, sofar)
    modifies w.buff
    ensures ok == ChannelOk(ch) && Before(w) == old(Before(w))
    ensures ok ==> var text := sofar + ChannelXml(ch); i == |text| && Holds(w, text)
  {
    hide Holds, Before, AttributesXml, ChannelOk, ChannelId, ScanXml;
    var id := "<channel id=\"" + ChannelId(ch) + "\"";
    i := Emit(w, sofar, i0, id);
    ghost var head := id;
    if ch.name != None {
      var name := " name=\"" + ch.name.value + "\"";
      i := Emit(w, sofar + head, i, name);
      Associative(sofar, head, name);
      head := head + name;
    } else {
      assert id + "" == id;
    }
    var kind := " type=\"" + (if ch.chOut then "output" else "input") + "\" >";
    i := Emit(w, sofar + head, i, kind);
    Associative(sofar, head, kind);
    head := head + kind;
    if ch.scanType != None {
      var scan := ScanXml(ch.scanIndex, ch.scanType.value);
      i := Emit(w, sofar + head, i, scan);
      Associative(sofar, head, scan);
      head := head + scan;
    } else {
      assert head + "" == head;
    }
    assert head == ChannelHead(ch);
    ok, i := AddAttributes(w, sofar + head, i, ch);
    if ok {
      i := Emit(w, sofar + head + AttributesXml(ch, |ch.attributes|), i, "</channel>");
      ThreeParts(sofar, head, AttributesXml(ch, |ch.attributes|), "</channel>");
    }
  }

  method AddNames(w: Window, ghost sofar: string, i0: nat, kind: string, names: seq<string>) returns (i: nat)
    requires InBounds(w) && i0 == |sofar| && Holds(w, sofar)
    modifies w.buff
    ensures Before(w) == old(Before(w))
    ensures var text := sofar + NamesXml(kind, names, |names|); i == |text| && Holds(w, text)
  {
    hide Holds, Before, NameXml;
    i := i0;
    assert sofar + "" == sofar;
    for j := 0 to |names|
      invariant var text := sofar + NamesXml(kind, names, j); i == |text| && Holds(w, text)
      invariant Before(w) == old(Before(w))
    {
      i := Emit(w, sofar + NamesXml(kind, names, j), i, NameXml(kind, names[j]));
      Associative(sofar, NamesXml(kind, names, j), NameXml(kind, names[j]));
    }
  }

  /** iio_generate_device_xml. */
  method GenerateDevice(w: Window, d: Named) returns (ret: int)
    requires InBounds(w)
    modifies w.buff
    ensures Before(w) == old(Before(w))
    ensures if DeviceOk(d) then ret == |DeviceXml(d)| && Holds(w, DeviceXml(d)) else ret == UINT32_MOD - EINVAL
  {
    hide Holds, Before, ChannelOk, ChannelXml, NamesXml, NameXml;
    StartsEmpty(w);
    ghost var t := "<device id=\"" + d.id + "\" name=\"" + d.name + "\">";
    assert "" + t == t;
    var i := Emit(w, "", 0, "<device id=\"" + d.id + "\" name=\"" + d.name + "\">");
    var ok;
    ghost var open := t;
    assert t + "" == t;
    for j := 0 to |d.device.channels|
      invariant forall l :: 0 <= l < j ==> ChannelOk(d.device.channels[l])
      invariant t == open + ChannelsXml(d.device.channels, j) && i == |t| && Holds(w, t)
      invariant Before(w) == old(Before(w))
    {
      ok, i := AddChannel(w, t, i, d.device.channels[j]);
      if !ok {
        return UINT32_MOD - EINVAL;
      }
      Associative(open, ChannelsXml(d.device.channels, j), ChannelXml(d.device.channels[j]));
      t := t + ChannelXml(d.device.channels[j]);
    }
    i := AddDeviceAttributes(w, t, i, d);
    ret := i;
  }

  /** The attributes of the device itself and its end. */
  method AddDeviceAttributes(w: Window, ghost sofar: string, i0: nat, d: Named) returns (i: nat)
    requires InBounds(w) && i0 == |sofar| && Holds(w, sofar)
    requires sofar == "<device id=\"" + d.id + "\" name=\"" + d.name + "\">"
                      + ChannelsXml(d.device.channels, |d.device.channels|)
    modifies w.buff
    ensures Before(w) == old(Before(w)) && i == |DeviceXml(d)| && Holds(w, DeviceXml(d))
  {
    hide Holds, Before, ChannelsXml, NamesXml, NameXml;
    ghost var t := sofar;
    i := AddNames(w, t, i0, "attribute", d.device.attributes);
    t := t + NamesXml("attribute", d.device.attributes, |d.device.attributes|);
    i := AddNames(w, t, i, "debug-attribute", d.device.debugAttributes);
    t := t + NamesXml("debug-attribute", d.device.debugAttributes, |d.device.debugAttributes|);
    if d.device.regAccess {
      i := Emit(w, t, i, NameXml("debug-attribute", "direct_reg_access"));
      t := t + NameXml("debug-attribute", "direct_reg_access");
    } else {
      assert t + "" == t;
    }
    i := AddNames(w, t, i, "buffer-attribute", d.device.bufferAttributes);
    t := t + NamesXml("buffer-attribute", d.device.bufferAttributes, |d.device.bufferAttributes|);
    i := Emit(w, t, i, "</device>");
  }

  /* ---------- The two passes ---------- */

  /** strcpy, its final zero included. */
  method StrCopy(buff: array<char>, at: nat, text: string)
    requires at + |text| < buff.Length
    modifies buff
    ensures buff[..at] == old(buff[..at]) && buff[at..at + |text|] == text && buff[at + |text|] == '\0'
  {
    forall k | 0 <= k < |text| {
      buff[at + k] := text[k];
    }
    buff[at + |text|] := '\0';
  }

  lemma {:induction false} DevicesGrow(devices: seq<Named>, i: nat, n: nat)
    requires i <= n <= |devices|
    ensures |DevicesXml(devices, i)| <= |DevicesXml(devices, n)|
    decreases n
  {
    hide DeviceXml;
    if i < n {
      DevicesGrow(devices, i, n - 1);
    }
  }

  /** The counting pass over devices or triggers, adding to a uint32_t. */
  method CountDevices(none: Window, size0: nat, devices: seq<Named>) returns (size: nat)
    requires InBounds(none)
    modifies none.buff
    ensures size == (size0 + CountedDevices(devices, |devices|)) % UINT32_MOD
  {
    hide DeviceXml, DeviceOk;
    size := size0 % UINT32_MOD;
    for i := 0 to |devices|
      invariant size == (size0 + CountedDevices(devices, i)) % UINT32_MOD
    {
      var more := GenerateDevice(none, devices[i]);
      size := (size + more) % UINT32_MOD;
    }
  }

  /** What a generator wrote behind the text so far. */
  lemma Extended(w: Window, sofar: string, text: string)
    requires InBounds(w) && w.base == |sofar| && Before(w) == sofar && Holds(w, text) && |text| < w.n
    ensures w.buff[..|sofar + text|] == sofar + text
  {
    assert w.buff[..w.base + |text|] == w.buff[..w.base] + w.buff[w.base..w.base + |text|];
  }

  /** The writing pass over devices or triggers. */
  method WriteDevices(xml: array<char>, of0: nat, size: nat, devices: seq<Named>) returns (of: int)
    requires forall i :: 0 <= i < |devices| ==> DeviceOk(devices[i])
    requires of0 + |DevicesXml(devices, |devices|)| < size <= xml.Length
    modifies xml
    ensures of == of0 + |DevicesXml(devices, |devices|)|
    ensures xml[..of] == old(xml[..of0]) + DevicesXml(devices, |devices|)
  {
    hide DeviceXml, DeviceOk, Before, Holds;
    ghost var start := xml[..of0];
    of := of0;
    assert start + "" == start;
    for i := 0 to |devices|
      invariant of == of0 + |DevicesXml(devices, i)| && of < size
      invariant xml[..of] == start + DevicesXml(devices, i)
    {
      DevicesGrow(devices, i + 1, |devices|);
      var w := Window(xml, of, size - of);
      ghost var sofar := xml[..of];
      BeforeIs(w);
      var more := GenerateDevice(w, devices[i]);
      Extended(w, sofar, DeviceXml(devices[i]));
      Associative(start, DevicesXml(devices, i), DeviceXml(devices[i]));
      of := of + more;
    }
  }

  lemma BeforeIs(w: Window)
    requires InBounds(w)
    ensures Before(w) == w.buff[..w.base]
  {
  }

  /** The counting pass. */
  method CountXml(header: string, c: Context) returns (size: nat)
    ensures size == CountedXml(header, c) % UINT32_MOD
    ensures |ContextXml(header, c)| <= INT32_MAX ==> (size == |ContextXml(header, c)| <==> ContextOk(c))
  {
    hide DeviceOk, DevicesXml, CountedDevices, ContextAttributesXml, ContextXml, ContextOk;
    var dummy := new char[50];
    var none := Window(dummy, 0, 0);
    size := |header| + |HEADER_END|;
    var more := AddContextAttributes(none, c.attributes);
    size := size + more;
    size := CountDevices(none, size, c.devices);
    size := CountDevices(none, size, c.triggers);
    if |ContextXml(header, c)| <= INT32_MAX {
      CountIsExactIff(header, c);
    }
  }

  /** The writing pass, up to the end of the triggers. */
  method WriteXml(xml: array<char>, size: nat, header: string, c: Context) returns (of: nat)
    requires ContextOk(c) && size == |ContextXml(header, c)| && xml.Length == size + 1
    modifies xml
    ensures of + |HEADER_END| == size && xml[..of] + HEADER_END == ContextXml(header, c)
  {
    hide DeviceOk, DevicesXml, ContextAttributesXml, Before, Holds;
    StrCopy(xml, 0, header);
    assert xml[..|header|] == header;
    var w := Window(xml, |header|, size - |header|);
    BeforeIs(w);
    of := AddContextAttributes(w, c.attributes);
    Extended(w, header, ContextAttributesXml(c.attributes, |c.attributes|));
    of := |header| + of;
    of := WriteDevices(xml, of, size, c.devices);
    of := WriteDevices(xml, of, size, c.triggers);
  }

  /** iio_init_xml, given the header. */
  method InitXml(header: string, c: Context) returns (xml: array<char>, xmlSize: nat)
    requires ContextOk(c) && |ContextXml(header, c)| <= INT32_MAX
    ensures xml.Length == xmlSize + 1 && xml[..xmlSize] == ContextXml(header, c) && xml[xmlSize] == '\0'
  {
    hide ContextXml, ContextOk, CountedXml;
    xmlSize := CountXml(header, c);
    xml := new char[xmlSize + 1](_ => '\0');
    var of := WriteXml(xml, xmlSize, header, c);
    StrCopy(xml, of, HEADER_END);
    assert xml[..xmlSize] == xml[..of] + xml[of..of + |HEADER_END|];
  }
}
