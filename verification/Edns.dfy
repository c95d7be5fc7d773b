/** EDNS0 options in the OPT pseudo-record (dns/edns.go). */
module Edns {
  import opened Bytes
  import opened Records

  datatype EdnsOption = EdnsOption(code: u16, data: Text)

  datatype Edns0 = Edns0(udpSize: u16, extRcode: byte, version: byte, doFlag: bool, options: seq<EdnsOption>)

  /** One option on the wire; its length field wraps at 16 bits. */
  function OptionBytes(o: EdnsOption): (r: Text)
    ensures |r| == 4 + |o.data|
  {
    PutU16(o.code) + PutU16(|o.data| % 0x1_0000) + o.data
  }

  function OptionsBytes(os: seq<EdnsOption>): Text {
    if os == [] then [] else OptionBytes(os[0]) + OptionsBytes(os[1..])
  }

  function BuildOPT(udpSize: u16, doFlag: bool): RR {
    RR([], TYPE_OPT, udpSize, if doFlag then 0x8000 else 0, 0, [])
  }

  /** BuildOPTWithOptions; RDLENGTH wraps at 16 bits. */
  function OptWith(udpSize: u16, doFlag: bool, os: seq<EdnsOption>): RR {
    BuildOPT(udpSize, doFlag).(rdata := OptionsBytes(os), rdlength := |OptionsBytes(os)| % 0x1_0000)
  }

  /** The options that ParseOPT reads from offset to n. */
  function ParseOptions(rdata: Text, offset: nat, n: nat): seq<EdnsOption>
    requires n <= |rdata|
    decreases n - offset
  {
    if offset + 4 > n then []
    else
      var len := GetU16(rdata, offset + 2);
      if offset + 4 + len > n then []
      else
        [EdnsOption(GetU16(rdata, offset), rdata[offset + 4..offset + 4 + len])]
        + ParseOptions(rdata, offset + 4 + len, n)
  }

  /** ParseOPT; a record whose length field exceeds its RDATA would make the source panic. */
  function ParseOPT(rr: RR): Option<Edns0>
    requires rr.rdlength <= |rr.rdata|
  {
    if rr.rtype != TYPE_OPT then None
    else Some(Edns0(rr.class_, rr.ttl / 0x100_0000, rr.ttl / 0x1_0000 % 256, rr.ttl / 0x8000 % 2 == 1,
                    ParseOptions(rr.rdata, 0, rr.rdlength)))
  }

  lemma OptionAt(all: Text, head: Text, o: EdnsOption, rest: Text)
    requires all == head + OptionBytes(o) + rest && |o.data| < 0x1_0000
    ensures GetU16(all, |head|) == o.code
    ensures GetU16(all, |head| + 2) == |o.data|
    ensures all[|head| + 4..|head| + 4 + |o.data|] == o.data
  {
    assert forall i :: 0 <= i < 4 ==> all[|head| + i] == OptionBytes(o)[i];
  }

  lemma {:induction false} ParseAfter(head: Text, os: seq<EdnsOption>)
    requires |OptionsBytes(os)| < 0x1_0000
    ensures ParseOptions(head + OptionsBytes(os), |head|, |head + OptionsBytes(os)|) == os
    decreases |os|
  {
    hide OptionBytes, GetU16;
    if os != [] {
      var first, rest := OptionBytes(os[0]), OptionsBytes(os[1..]);
      var all := head + OptionsBytes(os);
      assert all == (head + first) + rest;
      OptionAt(all, head, os[0], rest);
      ParseAfter(head + first, os[1..]);
      assert os == [os[0]] + os[1..];
    }
  }

  /** What is parsed never needs more octets than the length field grants. */
  lemma {:induction false} ParsedFits(rdata: Text, offset: nat, n: nat)
    requires offset <= n <= |rdata|
    ensures |OptionsBytes(ParseOptions(rdata, offset, n))| <= n - offset
    decreases n - offset
  {
    if offset + 4 <= n {
      var len := GetU16(rdata, offset + 2);
      if offset + 4 + len <= n {
        ParsedFits(rdata, offset + 4 + len, n);
        var os := ParseOptions(rdata, offset, n);
        assert os[1..] == ParseOptions(rdata, offset + 4 + len, n);
      }
    }
  }

  /** Options come back in order from the record built for them, with the size and the DO flag,
      if and only if their encoding fits the 16-bit length field. */
  lemma OptRoundTripIff(udpSize: u16, doFlag: bool, os: seq<EdnsOption>)
    ensures ParseOPT(OptWith(udpSize, doFlag, os)) == Some(Edns0(udpSize, 0, 0, doFlag, os))
       <==> |OptionsBytes(os)| < 0x1_0000
  {
    hide OptionsBytes, ParseOptions;
    var rr := OptWith(udpSize, doFlag, os);
    if |OptionsBytes(os)| < 0x1_0000 {
      ParseAfter([], os);
      assert [] + OptionsBytes(os) == OptionsBytes(os);
    } else {
      ParsedFits(rr.rdata, 0, rr.rdlength);
    }
  }

  lemma OptionsBytesSnoc(os: seq<EdnsOption>, o: EdnsOption)
    ensures OptionsBytes(os + [o]) == OptionsBytes(os) + OptionBytes(o)
  {
    if os == [] {
      assert os + [o] == [o];
    } else {
      assert (os + [o])[1..] == os[1..] + [o];
      OptionsBytesSnoc(os[1..], o);
    }
  }

  /** The loop of BuildOPTWithOptions. */
  method BuildOPTWithOptions(udpSize: u16, doFlag: bool, options: seq<EdnsOption>) returns (rr: RR)
    ensures rr == OptWith(udpSize, doFlag, options)
  {
    rr := BuildOPT(udpSize, doFlag);
    if |options| == 0 {
      return;
    }
    var rdata: Text := [];
    for i := 0 to |options|
      invariant rdata == OptionsBytes(options[..i])
    {
      OptionsBytesSnoc(options[..i], options[i]);
      assert options[..i + 1] == options[..i] + [options[i]];
      rdata := rdata + PutU16(options[i].code) + PutU16(|options[i].data| % 0x1_0000) + options[i].data;
    }
    assert options[..|options|] == options;
    rr := rr.(rdata := rdata, rdlength := |rdata| % 0x1_0000);
  }

  lemma OptionStep(rdata: Text, offset: nat, n: nat, len: nat)
    requires n <= |rdata| && offset + 4 <= n && len == GetU16(rdata, offset + 2) && offset + 4 + len <= n
    ensures ParseOptions(rdata, offset, n)
         == [EdnsOption(GetU16(rdata, offset), rdata[offset + 4..offset + 4 + len])]
            + ParseOptions(rdata, offset + 4 + len, n)
  {}

  lemma NoOption(rdata: Text, offset: nat, n: nat)
    requires n <= |rdata|
    requires offset + 4 > n || offset + 4 + GetU16(rdata, offset + 2) > n
    ensures ParseOptions(rdata, offset, n) == []
  {}

  /** The loop of ParseOPT over the options. */
  method ParseOptionsLoop(rr: RR) returns (options: seq<EdnsOption>)
    requires rr.rdlength <= |rr.rdata|
    ensures options == ParseOptions(rr.rdata, 0, rr.rdlength)
  {
    hide GetU16, ParseOptions;
    options := [];
    var offset: nat := 0;
    while offset + 4 <= rr.rdlength
      invariant options + ParseOptions(rr.rdata, offset, rr.rdlength) == ParseOptions(rr.rdata, 0, rr.rdlength)
      decreases rr.rdlength - offset
    {
      var code := GetU16(rr.rdata, offset);
      var optLen := GetU16(rr.rdata, offset + 2);
      if offset + 4 + optLen > rr.rdlength {
        break;
      }
      var o := EdnsOption(code, rr.rdata[offset + 4..offset + 4 + optLen]);
      OptionStep(rr.rdata, offset, rr.rdlength, optLen);
      ghost var rest := ParseOptions(rr.rdata, offset + 4 + optLen, rr.rdlength);
      assert options + ([o] + rest) == (options + [o]) + rest;
      options := options + [o];
      offset := offset + 4 + optLen;
    }
    NoOption(rr.rdata, offset, rr.rdlength);
  }

  /** ParseOPT */
  method ParseOptRecord(rr: RR) returns (r: Option<Edns0>)
    requires rr.rdlength <= |rr.rdata|
    ensures r == ParseOPT(rr)
  {
    hide ParseOptions;
    if rr.rtype != TYPE_OPT {
      return None;
    }
    var options := ParseOptionsLoop(rr);
    r := Some(Edns0(rr.class_, rr.ttl / 0x100_0000, rr.ttl / 0x1_0000 % 256, rr.ttl / 0x8000 % 2 == 1, options));
  }

  /** One option as long as the wire format allows is already lost. */
  lemma LongOptionCounterexample(data: Text)
    requires |data| == 65535
    ensures ParseOPT(OptWith(1232, false, [EdnsOption(10, data)]))
         != Some(Edns0(1232, 0, 0, false, [EdnsOption(10, data)]))
  {
    OptRoundTripIff(1232, false, [EdnsOption(10, data)]);
  }
}
