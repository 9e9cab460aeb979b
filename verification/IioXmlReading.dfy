/**
 What a client can read back from the description of a context (IioXml): the quoted values in it, and
 the numbers of the channels in the names.
 */
module IioXmlReading {
  import opened Basics
  import opened Decimal
  import opened IioValue
  import opened IioXml
  import opened Sequences

  /* ---------- A reader of quoted values ---------- */

  function QuoteAt(s: string): (k: nat)
    ensures k <= |s|
  {
    if s == "" || s[0] == '"' then 0 else 1 + QuoteAt(s[1..])
  }

  /** The texts between quotation marks, in order. */
  function Quoted(s: string): seq<string>
    decreases |s|
  {
    var i := QuoteAt(s);
    if i == |s| then [] else Inside(s[i + 1..])
  }

  /** The same, from behind the first of two marks. */
  function Inside(s: string): seq<string>
    decreases |s|
  {
    var j := QuoteAt(s);
    if j == |s| then [] else [s[..j]] + Quoted(s[j + 1..])
  }

  predicate Plain(s: string) { '"' !in s }

  lemma {:induction false} QuoteAfter(a: string, rest: string)
    requires Plain(a)
    ensures QuoteAt(a + rest) == |a| + QuoteAt(rest)
  {
    if a == "" {
      assert a + rest == rest;
    } else {
      assert (a + rest)[1..] == a[1..] + rest;
      QuoteAfter(a[1..], rest);
    }
  }

  /** Text without quotation marks is passed over, a value between them is read. */
  lemma {:induction false} Skips(a: string, rest: string)
    requires Plain(a)
    ensures Quoted(a + rest) == Quoted(rest)
  {
    hide Inside;
    QuoteAfter(a, rest);
    var i := QuoteAt(rest);
    if i < |rest| {
      assert (a + rest)[|a| + i + 1..] == rest[i + 1..];
    }
  }

  lemma {:induction false} Reads(v: string, rest: string)
    requires Plain(v)
    ensures Quoted("\"" + v + "\"" + rest) == [v] + Quoted(rest)
  {
    var s, u := "\"" + v + "\"" + rest, v + ("\"" + rest);
    assert s[1..] == u;
    assert Quoted(s) == Inside(u) by {
      hide Inside;
    }
    hide Quoted;
    QuoteAfter(v, "\"" + rest);
    assert u[..|v|] == v && u[|v| + 1..] == rest;
  }

  /** A key with its value. */
  lemma {:induction false} ReadsKey(key: string, v: string, rest: string)
    requires Plain(key) && Plain(v)
    ensures Quoted(key + ("\"" + v + "\"" + rest)) == [v] + Quoted(rest)
  {
    hide Quoted;
    Skips(key, "\"" + v + "\"" + rest);
    Reads(v, rest);
  }

  /* ---------- What the texts of a description contain ---------- */

  /** Every name in a channel is free of quotation marks. */
  predicate PlainChannel(ch: Channel) {
    && Plain(ch.chType) && Plain(ch.modifier) && (ch.name.Some? ==> Plain(ch.name.value))
    && (ch.scanType.Some? ==> ch.scanType.value.sign != '"')
    && forall k :: 0 <= k < |ch.attributes| ==> Plain(ch.attributes[k].name)
  }

  lemma DecIsPlain(v: int)
    ensures Plain(Dec(v))
  {
  }

  lemma NamesArePlain(ch: Channel, a: Attribute)
    requires PlainChannel(ch) && Plain(a.name)
    ensures Plain(ChannelId(ch)) && Plain(FileName(ch, a))
  {
    hide Dec;
    DecIsPlain(ch.channel);
    DecIsPlain(ch.channel2);
  }

  /** The name of each attribute and its file name. */
  function AttributeValues(ch: Channel, n: nat): seq<string>
    requires n <= |ch.attributes|
  {
    if n == 0 then []
    else AttributeValues(ch, n - 1) + [ch.attributes[n - 1].name, FileName(ch, ch.attributes[n - 1])]
  }

  lemma {:induction false} AttributeReads(ch: Channel, a: Attribute, rest: string)
    requires PlainChannel(ch) && Plain(a.name)
    ensures Quoted(AttributeXml(ch, a) + rest) == [a.name, FileName(ch, a)] + Quoted(rest)
  {
    hide Quoted, FileName, Plain;
    var file := FileName(ch, a);
    NamesArePlain(ch, a);
    AttributeKeys();
    assert AttributeXml(ch, a) == "<attribute name=\"" + a.name + "\" " + ("filename=\"" + file + "\"") + " />";
    hide AttributeXml;
    Skips(" />", rest);
    ReadsKey(" filename=", file, " />" + rest);
    ReadsKey("<attribute name=", a.name, " filename=" + ("\"" + file + "\"" + (" />" + rest)));
    AttributeRegrouped(a.name, file, rest);
  }

  lemma AttributeKeys()
    ensures Plain(" />") && Plain(" filename=") && Plain("<attribute name=")
  {
  }

  lemma AttributeRegrouped(name: string, file: string, rest: string)
    ensures "<attribute name=\"" + name + "\" " + ("filename=\"" + file + "\"") + " />" + rest
         == "<attribute name=" + ("\"" + name + "\"" + (" filename=" + ("\"" + file + "\"" + (" />" + rest))))
  {
  }

  lemma {:induction false} AttributesRead(ch: Channel, n: nat, rest: string)
    requires PlainChannel(ch) && n <= |ch.attributes|
    ensures Quoted(AttributesXml(ch, n) + rest) == AttributeValues(ch, n) + Quoted(rest)
  {
    hide Quoted, AttributeXml, FileName;
    if n == 0 {
      assert "" + rest == rest;
    } else {
      var x := AttributeXml(ch, ch.attributes[n - 1]);
      Associative(AttributesXml(ch, n - 1), x, rest);
      AttributesRead(ch, n - 1, x + rest);
      AttributeReads(ch, ch.attributes[n - 1], rest);
    }
  }

  /** The id of a channel, its name if it has one, its direction, and the index and format of its scan
      element if it has one. */
  function HeadValues(ch: Channel): seq<string> {
    [ChannelId(ch)] + (if ch.name.Some? then [ch.name.value] else [])
    + [if ch.chOut then "output" else "input"]
    + if ch.scanType.Some? then [Dec(ch.scanIndex), Format(ch.scanType.value)] else []
  }

  /** libiio's format of a sample: byte order, sign, bits in use, bits in store, shift. */
  function Format(s: ScanType): string {
    (if s.isBigEndian then "be" else "le") + ":" + [s.sign] + Dec(s.realbits) + "/" + Dec(s.storagebits)
    + ">>" + Dec(s.shift)
  }

  lemma {:induction false} ScanReads(ch: Channel, rest: string)
    requires PlainChannel(ch) && ch.scanType.Some?
    ensures Quoted(ScanXml(ch.scanIndex, ch.scanType.value) + rest)
         == [Dec(ch.scanIndex), Format(ch.scanType.value)] + Quoted(rest)
  {
    hide Quoted, Dec, Format, ScanXml;
    var f := Format(ch.scanType.value);
    DecIsPlain(ch.scanIndex);
    FormatIsPlain(ch.scanType.value);
    Skips(" />", rest);
    ReadsKey(" format=", f, " />" + rest);
    ReadsKey("<scan-element index=", Dec(ch.scanIndex), " format=" + ("\"" + f + "\"" + (" />" + rest)));
    ScanParts(ch.scanIndex, ch.scanType.value, rest);
  }

  lemma {:induction false} ScanParts(index: int, s: ScanType, rest: string)
    ensures ScanXml(index, s) + rest
         == "<scan-element index="
            + ("\"" + Dec(index) + "\"" + (" format=" + ("\"" + Format(s) + "\"" + (" />" + rest))))
  {
    hide Dec, Format;
    assert ScanXml(index, s) == "<scan-element index=\"" + Dec(index) + "\" format=\"" + Format(s) + "\" />" by {
      FormatInside("<scan-element index=\"" + Dec(index) + "\" format=\"", s);
    }
    hide ScanXml;
  }

  lemma {:induction false} FormatInside(before: string, s: ScanType)
    ensures before + (if s.isBigEndian then "be" else "le") + ":" + [s.sign]
            + Dec(s.realbits) + "/" + Dec(s.storagebits) + ">>" + Dec(s.shift) + "\" />"
         == before + Format(s) + "\" />"
  {
    hide Dec;
  }

  lemma FormatIsPlain(s: ScanType)
    requires s.sign != '"'
    ensures Plain(Format(s))
  {
    hide Dec;
    DecIsPlain(s.realbits);
    DecIsPlain(s.storagebits);
    DecIsPlain(s.shift);
  }

  lemma {:induction false} DirectionReads(ch: Channel, rest: string)
    requires PlainChannel(ch)
    ensures var scan := if ch.scanType == None then "" else ScanXml(ch.scanIndex, ch.scanType.value);
            && Quoted(" type=" + ("\"" + (if ch.chOut then "output" else "input") + "\"" + (" >" + (scan + rest))))
            == [if ch.chOut then "output" else "input"]
            + (if ch.scanType.Some? then [Dec(ch.scanIndex), Format(ch.scanType.value)] else []) + Quoted(rest)
  {
    hide Quoted, ScanXml, Format, Dec;
    var scan := if ch.scanType == None then "" else ScanXml(ch.scanIndex, ch.scanType.value);
    if ch.scanType.Some? {
      ScanReads(ch, rest);
    } else {
      assert scan + rest == rest;
    }
    Skips(" >", scan + rest);
    ReadsKey(" type=", if ch.chOut then "output" else "input", " >" + (scan + rest));
  }

  lemma {:induction false} HeadReads(ch: Channel, rest: string)
    requires PlainChannel(ch)
    ensures Quoted(ChannelHead(ch) + rest) == HeadValues(ch) + Quoted(rest)
  {
    hide Quoted, ChannelId, ScanXml, Format, Dec, ChannelHead;
    var scan := if ch.scanType == None then "" else ScanXml(ch.scanIndex, ch.scanType.value);
    var t2 := " type=" + ("\"" + (if ch.chOut then "output" else "input") + "\"" + (" >" + (scan + rest)));
    var t1 := if ch.name == None then t2 else " name=" + ("\"" + ch.name.value + "\"" + t2);
    NamesArePlain(ch, Attribute("", ByAll));
    DirectionReads(ch, rest);
    if ch.name.Some? {
      ReadsKey(" name=", ch.name.value, t2);
    }
    ReadsKey("<channel id=", ChannelId(ch), t1);
    HeadParts(ch, rest, scan, t2, t1);
  }

  lemma {:induction false} HeadParts(ch: Channel, rest: string, scan: string, t2: string, t1: string)
    requires scan == if ch.scanType == None then "" else ScanXml(ch.scanIndex, ch.scanType.value)
    requires t2 == " type=" + ("\"" + (if ch.chOut then "output" else "input") + "\"" + (" >" + (scan + rest)))
    requires t1 == if ch.name == None then t2 else " name=" + ("\"" + ch.name.value + "\"" + t2)
    ensures ChannelHead(ch) + rest == "<channel id=" + ("\"" + ChannelId(ch) + "\"" + t1)
  {
    hide ChannelId, ScanXml;
    var name := if ch.name == None then "" else " name=\"" + ch.name.value + "\"";
    var direction := if ch.chOut then "output" else "input";
    assert t1 == name + t2;
    assert ChannelHead(ch) == "<channel id=\"" + ChannelId(ch) + "\"" + name + (" type=\"" + direction + "\" >") + scan;
    hide *;
    HeadRegrouped(ChannelId(ch), name, direction, scan, rest);
  }

  lemma HeadRegrouped(id: string, name: string, direction: string, scan: string, rest: string)
    ensures ("<channel id=\"" + id + "\"" + name + (" type=\"" + direction + "\" >") + scan) + rest
         == "<channel id="
            + ("\"" + id + "\"" + (name + (" type=" + ("\"" + direction + "\"" + (" >" + (scan + rest))))))
  {
  }

  /** A client reads from the text of a channel its id, name, direction, scan element, and the name and file
      name of every attribute, and nothing else. */
  lemma {:induction false} ChannelReads(ch: Channel, rest: string)
    requires PlainChannel(ch)
    ensures Quoted(ChannelXml(ch) + rest)
         == HeadValues(ch) + AttributeValues(ch, |ch.attributes|) + Quoted(rest)
  {
    hide Quoted, ChannelHead, AttributesXml, HeadValues, AttributeValues;
    var tail := "</channel>" + rest;
    Skips("</channel>", rest);
    AttributesRead(ch, |ch.attributes|, tail);
    HeadReads(ch, AttributesXml(ch, |ch.attributes|) + tail);
    assert ChannelXml(ch) + rest == ChannelHead(ch) + (AttributesXml(ch, |ch.attributes|) + tail);
  }

  function ChannelsValues(channels: seq<Channel>, n: nat): seq<string>
    requires n <= |channels|
  {
    if n == 0 then []
    else
      ChannelsValues(channels, n - 1)
      + (HeadValues(channels[n - 1]) + AttributeValues(channels[n - 1], |channels[n - 1].attributes|))
  }

  lemma {:induction false} ChannelsRead(channels: seq<Channel>, n: nat, rest: string)
    requires n <= |channels| && forall i :: 0 <= i < |channels| ==> PlainChannel(channels[i])
    ensures Quoted(ChannelsXml(channels, n) + rest) == ChannelsValues(channels, n) + Quoted(rest)
  {
    hide Quoted, ChannelXml, HeadValues, AttributeValues, PlainChannel;
    if n == 0 {
      assert "" + rest == rest;
    } else {
      var x := ChannelXml(channels[n - 1]);
      Associative(ChannelsXml(channels, n - 1), x, rest);
      ChannelsRead(channels, n - 1, x + rest);
      ChannelReads(channels[n - 1], rest);
    }
  }

  lemma {:induction false} NamesRead(kind: string, names: seq<string>, n: nat, rest: string)
    requires Plain(kind) && n <= |names| && forall i :: 0 <= i < |names| ==> Plain(names[i])
    ensures Quoted(NamesXml(kind, names, n) + rest) == names[..n] + Quoted(rest)
  {
    hide Quoted;
    if n == 0 {
      assert "" + rest == rest;
    } else {
      var x := NameXml(kind, names[n - 1]);
      Associative(NamesXml(kind, names, n - 1), x, rest);
      NamesRead(kind, names, n - 1, x + rest);
      NameReads(kind, names[n - 1], rest);
      assert names[..n] == names[..n - 1] + [names[n - 1]];
    }
  }

  lemma {:induction false} NameReads(kind: string, name: string, rest: string)
    requires Plain(kind) && Plain(name)
    ensures Quoted(NameXml(kind, name) + rest) == [name] + Quoted(rest)
  {
    hide Quoted;
    var tail := " />" + rest;
    Skips(" />", rest);
    ReadsKey("<" + kind + " name=", name, tail);
    assert NameXml(kind, name) + rest == "<" + kind + " name=" + ("\"" + name + "\"" + tail);
  }

  predicate PlainDevice(d: Named) {
    && Plain(d.id) && Plain(d.name)
    && (forall i :: 0 <= i < |d.device.channels| ==> PlainChannel(d.device.channels[i]))
    && (forall i :: 0 <= i < |d.device.attributes| ==> Plain(d.device.attributes[i]))
    && (forall i :: 0 <= i < |d.device.debugAttributes| ==> Plain(d.device.debugAttributes[i]))
    && (forall i :: 0 <= i < |d.device.bufferAttributes| ==> Plain(d.device.bufferAttributes[i]))
  }

  /** From the text of a device: its id and name, its channels, and its attributes, those for debugging,
      with the register access if there is one, and those of its buffer. */
  lemma {:induction false} DeviceReads(d: Named, rest: string)
    requires PlainDevice(d)
    ensures Quoted(DeviceXml(d) + rest)
         == [d.id, d.name] + ChannelsValues(d.device.channels, |d.device.channels|) + d.device.attributes
            + d.device.debugAttributes + (if d.device.regAccess then ["direct_reg_access"] else [])
            + d.device.bufferAttributes + Quoted(rest)
  {
    hide Quoted, ChannelsXml, ChannelsValues, NamesXml, NameXml, PlainChannel;
    var v := d.device;
    var t5 := "</device>" + rest;
    var t4 := NamesXml("buffer-attribute", v.bufferAttributes, |v.bufferAttributes|) + t5;
    var reg := if v.regAccess then NameXml("debug-attribute", "direct_reg_access") else "";
    var t3 := reg + t4;
    var t2 := NamesXml("debug-attribute", v.debugAttributes, |v.debugAttributes|) + t3;
    var t1 := NamesXml("attribute", v.attributes, |v.attributes|) + t2;
    var t0 := ChannelsXml(v.channels, |v.channels|) + t1;
    Skips("</device>", rest);
    NamesRead("buffer-attribute", v.bufferAttributes, |v.bufferAttributes|, t5);
    if v.regAccess {
      NameReads("debug-attribute", "direct_reg_access", t4);
    } else {
      assert t3 == t4;
    }
    NamesRead("debug-attribute", v.debugAttributes, |v.debugAttributes|, t3);
    NamesRead("attribute", v.attributes, |v.attributes|, t2);
    ChannelsRead(v.channels, |v.channels|, t1);
    OpeningReads(d, t0);
    DeviceParts(d, rest, t5, t4, reg, t3, t2, t1, t0);
    assert v.attributes[..|v.attributes|] == v.attributes;
    assert v.debugAttributes[..|v.debugAttributes|] == v.debugAttributes;
    assert v.bufferAttributes[..|v.bufferAttributes|] == v.bufferAttributes;
  }

  lemma {:induction false} OpeningReads(d: Named, rest: string)
    requires Plain(d.id) && Plain(d.name)
    ensures Quoted("<device id=" + ("\"" + d.id + "\"" + (" name=" + ("\"" + d.name + "\"" + (">" + rest)))))
         == [d.id, d.name] + Quoted(rest)
  {
    hide Quoted;
    Skips(">", rest);
    ReadsKey(" name=", d.name, ">" + rest);
    ReadsKey("<device id=", d.id, " name=" + ("\"" + d.name + "\"" + (">" + rest)));
  }

  lemma {:induction false} DeviceParts(d: Named, rest: string, t5: string, t4: string, reg: string, t3: string,
                                       t2: string, t1: string, t0: string)
    requires t5 == "</device>" + rest
    requires t4 == NamesXml("buffer-attribute", d.device.bufferAttributes, |d.device.bufferAttributes|) + t5
    requires reg == (if d.device.regAccess then NameXml("debug-attribute", "direct_reg_access") else "")
    requires t3 == reg + t4
    requires t2 == NamesXml("debug-attribute", d.device.debugAttributes, |d.device.debugAttributes|) + t3
    requires t1 == NamesXml("attribute", d.device.attributes, |d.device.attributes|) + t2
    requires t0 == ChannelsXml(d.device.channels, |d.device.channels|) + t1
    ensures DeviceXml(d) + rest
         == "<device id=" + ("\"" + d.id + "\"" + (" name=" + ("\"" + d.name + "\"" + (">" + t0))))
  {
    var channels := ChannelsXml(d.device.channels, |d.device.channels|);
    var attributes := NamesXml("attribute", d.device.attributes, |d.device.attributes|);
    var debug := NamesXml("debug-attribute", d.device.debugAttributes, |d.device.debugAttributes|);
    var buffer := NamesXml("buffer-attribute", d.device.bufferAttributes, |d.device.bufferAttributes|);
    assert DeviceXml(d) == "<device id=\"" + d.id + "\" name=\"" + d.name + "\">" + channels + attributes + debug + reg
                           + buffer + "</device>" by {
      hide ChannelsXml, NamesXml, NameXml;
    }
    hide *;
    DeviceRegrouped(d.id, d.name, channels, attributes, debug, reg, buffer, rest);
  }

  lemma DeviceRegrouped(id: string, name: string, channels: string, attributes: string, debug: string, reg: string,
                        buffer: string, rest: string)
    ensures ("<device id=\"" + id + "\" name=\"" + name + "\">" + channels + attributes + debug + reg + buffer
             + "</device>") + rest
         == "<device id=" + ("\"" + id + "\"" + (" name=" + ("\"" + name + "\"" + (">" + (channels + (attributes
            + (debug + (reg + (buffer + ("</device>" + rest))))))))))
  {
  }

  function DeviceValues(d: Named): seq<string> {
    [d.id, d.name] + ChannelsValues(d.device.channels, |d.device.channels|) + d.device.attributes
    + d.device.debugAttributes + (if d.device.regAccess then ["direct_reg_access"] else [])
    + d.device.bufferAttributes
  }

  function DevicesValues(devices: seq<Named>, n: nat): seq<string>
    requires n <= |devices|
  {
    if n == 0 then [] else DevicesValues(devices, n - 1) + DeviceValues(devices[n - 1])
  }

  lemma {:induction false} DevicesRead(devices: seq<Named>, n: nat, rest: string)
    requires n <= |devices| && forall i :: 0 <= i < |devices| ==> PlainDevice(devices[i])
    ensures Quoted(DevicesXml(devices, n) + rest) == DevicesValues(devices, n) + Quoted(rest)
  {
    hide Quoted, DeviceXml, PlainDevice, ChannelsValues;
    if n == 0 {
      assert "" + rest == rest;
    } else {
      var x := DeviceXml(devices[n - 1]);
      Associative(DevicesXml(devices, n - 1), x, rest);
      DevicesRead(devices, n - 1, x + rest);
      DeviceReads(devices[n - 1], rest);
    }
  }

  function ContextValues(attributes: seq<ContextAttribute>, n: nat): seq<string>
    requires n <= |attributes|
  {
    if n == 0 then [] else ContextValues(attributes, n - 1) + [attributes[n - 1].name, attributes[n - 1].value]
  }

  lemma {:induction false} ContextAttributesRead(attributes: seq<ContextAttribute>, n: nat, rest: string)
    requires n <= |attributes|
    requires forall i :: 0 <= i < |attributes| ==> Plain(attributes[i].name) && Plain(attributes[i].value)
    ensures Quoted(ContextAttributesXml(attributes, n) + rest) == ContextValues(attributes, n) + Quoted(rest)
  {
    hide Quoted;
    if n == 0 {
      assert "" + rest == rest;
    } else {
      var a := attributes[n - 1];
      var value := " value=" + ("\"" + a.value + "\"" + (" />" + rest));
      Skips(" />", rest);
      ReadsKey(" value=", a.value, " />" + rest);
      ReadsKey("<context-attribute name=", a.name, value);
      ContextAttributesRead(attributes, n - 1, "<context-attribute name=" + ("\"" + a.name + "\"" + value));
      ContextRegrouped(ContextAttributesXml(attributes, n - 1), a.name, a.value, rest);
    }
  }

  lemma ContextRegrouped(before: string, name: string, value: string, rest: string)
    ensures before + ("<context-attribute name=\"" + name + "\" ") + ("value=\"" + value + "\" />") + rest
         == before + ("<context-attribute name="
                      + ("\"" + name + "\"" + (" value=" + ("\"" + value + "\"" + (" />" + rest)))))
  {
  }

  /** From the whole description, behind its header: the names and values of the context attributes, and
      what the devices and the triggers are described with. */
  lemma {:induction false} ContextReads(header: string, c: Context)
    requires forall i :: 0 <= i < |c.attributes| ==> Plain(c.attributes[i].name) && Plain(c.attributes[i].value)
    requires forall i :: 0 <= i < |c.devices| ==> PlainDevice(c.devices[i])
    requires forall i :: 0 <= i < |c.triggers| ==> PlainDevice(c.triggers[i])
    ensures header <= ContextXml(header, c)
    ensures Quoted(ContextXml(header, c)[|header|..])
         == ContextValues(c.attributes, |c.attributes|) + DevicesValues(c.devices, |c.devices|)
            + DevicesValues(c.triggers, |c.triggers|)
  {
    hide Quoted, ContextAttributesXml, DevicesXml, PlainDevice, ContextValues, DevicesValues;
    var t2 := DevicesXml(c.triggers, |c.triggers|) + HEADER_END;
    var t1 := DevicesXml(c.devices, |c.devices|) + t2;
    var t0 := ContextAttributesXml(c.attributes, |c.attributes|) + t1;
    assert ContextXml(header, c) == header + t0;
    EndReads();
    DevicesRead(c.triggers, |c.triggers|, HEADER_END);
    DevicesRead(c.devices, |c.devices|, t2);
    ContextAttributesRead(c.attributes, |c.attributes|, t1);
    assert ContextXml(header, c)[|header|..] == t0;
  }

  lemma EndReads()
    ensures Quoted(HEADER_END) == []
  {
    assert Plain(HEADER_END);
    QuoteAfter(HEADER_END, "");
    assert HEADER_END + "" == HEADER_END;
  }

  /** The tags that the values stand in. */
  lemma DeviceTags()
    ensures DeviceXml(Named("i", "n", Device([], ["a"], ["d"], ["b"], false)))
         == "<device id=\"i\" name=\"n\">" + "<attribute name=\"a\" />" + "<debug-attribute name=\"d\" />"
            + "<buffer-attribute name=\"b\" />" + "</device>"
  {
    AttributeTag();
    DebugTag();
    BufferTag();
    OneName("attribute", "a");
    OneName("debug-attribute", "d");
    OneName("buffer-attribute", "b");
    hide NamesXml, NameXml;
    assert ChannelsXml([], 0) == "";
  }

  lemma AttributeTag()
    ensures NameXml("attribute", "a") == "<attribute name=\"a\" />"
  {
  }

  lemma DebugTag()
    ensures NameXml("debug-attribute", "d") == "<debug-attribute name=\"d\" />"
  {
  }

  lemma BufferTag()
    ensures NameXml("buffer-attribute", "b") == "<buffer-attribute name=\"b\" />"
  {
  }

  lemma ChannelTags(ch: Channel)
    requires ch == Channel(None, "v", "", 0, 0, 0, None, [Attribute("raw", ByDir)], true, false, false, false)
    ensures AttributeXml(ch, ch.attributes[0]) == "<attribute name=\"raw\" filename=\"out_raw\" />"
    ensures ChannelHead(ch) == "<channel id=\"v\" type=\"output\" >"
  {
  }

  lemma OneName(kind: string, name: string)
    ensures NamesXml(kind, [name], 1) == NameXml(kind, name)
  {
    assert NamesXml(kind, [name], 0) == "";
  }

  /* ---------- Numbers in names ---------- */

  /** A decimal number at the start of a text. */
  function LeadingNumber(s: string): int {
    if s != "" && s[0] == '-' then -(ValueFrom(s[1..], 10, 0) as int) else ValueFrom(s, 10, 0)
  }

  lemma {:induction false} NumberReads(v: int, rest: string)
    requires rest == "" || rest[0] == '-' || rest[0] == '_'
    ensures LeadingNumber(Dec(v) + rest) == v
  {
    hide Digits, ValueFrom;
    var n: nat := if v < 0 then -v else v;
    ReadDigits(n, rest, 0);
    NumberEnds(rest, n);
    DecIsNumeral(v);
    if v < 0 {
      assert (Dec(v) + rest)[1..] == Digits(n) + rest;
    }
  }

  lemma NumberEnds(rest: string, acc: nat)
    requires rest == "" || rest[0] == '-' || rest[0] == '_'
    ensures ValueFrom(rest, 10, acc) == acc
  {
  }

  /** The id of an indexed channel tells its number, that of a differential one both of its numbers. */
  lemma {:induction false} IdTells(ch: Channel)
    requires !ch.modified && ch.indexed
    ensures ch.chType <= ChannelId(ch) && LeadingNumber(ChannelId(ch)[|ch.chType|..]) == ch.channel
    ensures ch.diferential ==>
              var behind := |ch.chType| + |Dec(ch.channel)| + 1 + |ch.chType|;
              behind <= |ChannelId(ch)| && LeadingNumber(ChannelId(ch)[behind..]) == ch.channel2
  {
    hide Dec, LeadingNumber;
    var t, n := ch.chType, Dec(ch.channel);
    if ch.diferential {
      assert ChannelId(ch)[|t|..] == n + ("-" + t + Dec(ch.channel2));
      NumberReads(ch.channel, "-" + t + Dec(ch.channel2));
      assert ChannelId(ch)[|t| + |n| + 1 + |t|..] == Dec(ch.channel2) + "";
      NumberReads(ch.channel2, "");
    } else {
      assert ChannelId(ch)[|t|..] == n + "";
      NumberReads(ch.channel, "");
    }
  }

  /** The file name of an attribute that all channels share is its name.  Any other starts with the
      direction and ends with the name. */
  lemma {:induction false} FileNameEnds(ch: Channel, a: Attribute)
    ensures a.shared == ByAll ==> FileName(ch, a) == a.name
    ensures a.shared != ByAll ==>
              && (if ch.chOut then "out_" else "in_") <= FileName(ch, a)
              && |FileName(ch, a)| > |a.name|
              && FileName(ch, a)[|FileName(ch, a)| - |a.name| - 1..] == "_" + a.name
  {
    hide Dec;
  }

  /** That of a channel's own attribute tells its number behind the type. */
  lemma {:induction false} FileNameTells(ch: Channel, a: Attribute)
    requires a.shared == Separate && ch.indexed && !ch.diferential
    ensures var first := (if ch.chOut then 4 else 3) + |ch.chType|;
            first <= |FileName(ch, a)| && LeadingNumber(FileName(ch, a)[first..]) == ch.channel
  {
    hide Dec, LeadingNumber;
    assert FileName(ch, a)[(if ch.chOut then 4 else 3) + |ch.chType|..] == Dec(ch.channel) + ("_" + a.name);
    NumberReads(ch.channel, "_" + a.name);
  }

  /** That of a differential one tells both of its numbers. */
  lemma {:induction false} FileNameTellsBoth(ch: Channel, a: Attribute)
    requires a.shared == Separate && ch.diferential
    ensures var first := (if ch.chOut then 4 else 3) + |ch.chType|;
            var second := first + |Dec(ch.channel)| + 1 + |ch.chType|;
            && second <= |FileName(ch, a)|
            && LeadingNumber(FileName(ch, a)[first..]) == ch.channel
            && LeadingNumber(FileName(ch, a)[second..]) == ch.channel2
  {
    hide LeadingNumber;
    var t, n, m, e := ch.chType, Dec(ch.channel), Dec(ch.channel2), "_" + a.name;
    hide Dec;
    var d := if ch.chOut then "out_" else "in_";
    assert FileName(ch, a) == d + t + n + "-" + t + m + e;
    TwoNumbers(d + t, n, t, m, e);
    NumberReads(ch.channel, "-" + t + m + e);
    NumberReads(ch.channel2, e);
  }

  lemma TwoNumbers(d: string, n: string, t: string, m: string, e: string)
    ensures var f := d + n + "-" + t + m + e;
            f[|d|..] == n + ("-" + t + m + e) && f[|d| + |n| + 1 + |t|..] == m + e
  {
  }
}
