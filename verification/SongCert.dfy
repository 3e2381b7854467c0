/** Song certificates: six strings behind a fixed header, and a signature of them all. */
module SongCerts {
  import opened Options
  import opened Bytes
  import opened Arguments
  import opened TextCodec
  import opened BinaryCodec

  const HEAD_SIZE: nat := 24
  const SIGNATURE_SIZE: nat := 20

  /** The header as it lies in memory; its first byte is the version. */
  type Head = h: seq<U8> | |h| == 24 witness seq(24, _ => 0)

  /** HMAC-SHA1 with the key of the certificates */
  type Mac = f: seq<U8> -> seq<U8> | forall s :: |f(s)| == 20 witness _ => seq(20, _ => 0)

  /** A string that is missing is written as an empty one. */
  function Known(s: Option<seq<U8>>): seq<U8> {
    match s
    case None => []
    case Some(t) => t
  }

  ghost predicate AreStrings(ss: seq<seq<U8>>) {
    forall k | 0 <= k < |ss| :: NoNul(ss[k])
  }

  /** Strings one after the other, each with its NUL. */
  function Strings(ss: seq<seq<U8>>): seq<U8> {
    if ss == [] then [] else ss[0] + [NUL8] + Strings(ss[1..])
  }

  /** What is signed. */
  function Signed(head: Head, ss: seq<seq<U8>>): seq<U8> {
    head + Strings(ss)
  }

  /** A whole certificate in bytes. */
  function Serialised(mac: Mac, head: Head, ss: seq<seq<U8>>): seq<U8> {
    Signed(head, ss) + mac(Signed(head, ss))
  }

  /** Reading `n` strings from `i`: the strings and where they end, if they do. */
  ghost function ReadStrings(b: seq<U8>, i: nat, n: nat): (r: Option<(seq<seq<U8>>, nat)>)
    ensures r.Some? ==> |r.value.0| == n && i <= r.value.1 && (i <= |b| ==> r.value.1 <= |b|)
    decreases n
  {
    if n == 0 then Some(([], i))
    else if !Terminated(b, i) then None
    else
      match ReadStrings(b, StrEnd(b, i) + 1, n - 1)
      case None => None
      case Some((ss, end)) => Some(([CString(b, i)] + ss, end))
  }

  /** Strings that were written are read back, whatever comes before and after them. */
  lemma {:induction false} StringsRoundTrip(b: seq<U8>, i: nat, ss: seq<seq<U8>>)
    requires AreStrings(ss) && At(b, i, Strings(ss))
    ensures ReadStrings(b, i, |ss|) == Some((ss, i + |Strings(ss)|))
    decreases |ss|
  {
    if ss != [] {
      var s, rest := ss[0], ss[1..];
      AtSplit(b, i, s + [NUL8], Strings(rest));
      StringAt(b, i, s);
      StringsRoundTrip(b, i + |s| + 1, rest);
      assert [s] + rest == ss;
    }
  }

  lemma StringAt(b: seq<U8>, i: nat, s: seq<U8>)
    requires NoNul(s) && At(b, i, s + [NUL8])
    ensures Terminated(b, i) && StrEnd(b, i) == i + |s| && CString(b, i) == s
  {
    AtSplit(b, i, s, [NUL8]);
    assert b[i + |s| + 0] == [NUL8][0];
    assert forall k | i <= k < i + |s| :: b[k] == s[k - i];
    StrEndIs(b, i, i + |s|);
  }

  /** What was read, written again, is what was there. */
  lemma {:induction false} StringsCanonical(b: seq<U8>, i: nat, n: nat)
    requires i <= |b| && ReadStrings(b, i, n).Some?
    ensures var (ss, end) := ReadStrings(b, i, n).value;
            AreStrings(ss) && b[i..end] == Strings(ss)
    decreases n
  {
    if n > 0 {
      var e := StrEnd(b, i);
      StringsCanonical(b, e + 1, n - 1);
      var (ss, end) := ReadStrings(b, i, n).value;
      assert ss[1..] == ReadStrings(b, e + 1, n - 1).value.0;
      assert b[i..end] == b[i..e] + [b[e]] + b[e + 1..end];
    }
  }

  class SongCert {
    const mac: Mac
    var head: Head
    var artist: Option<seq<U8>>
    var title: Option<seq<U8>>
    var album: Option<seq<U8>>
    var composer: Option<seq<U8>>
    var orchestra: Option<seq<U8>>
    var soloist: Option<seq<U8>>
    var signature: seq<U8>

    constructor (mac: Mac)
      ensures Valid() && this.mac == mac
    {
      this.mac := mac;
      head, signature := seq(24, _ => 0), seq(20, _ => 0);
      artist, title, album, composer, orchestra, soloist := None, None, None, None, None, None;
    }

    function Texts(): (ss: seq<seq<U8>>)
      reads this`artist, this`title, this`album, this`composer, this`orchestra, this`soloist
      ensures |ss| == 6
    {
      [Known(artist), Known(title), Known(album), Known(composer), Known(orchestra), Known(soloist)]
    }

    /** The six fields as they lie one after the other, each with its NUL. */
    ghost function Fields(): seq<U8>
      reads this`artist, this`title, this`album, this`composer, this`orchestra, this`soloist
    {
      Known(artist) + [0] + (Known(title) + [0] + (Known(album) + [0]
                                                   + (Known(composer) + [0] + (Known(orchestra) + [0] + (Known(soloist) + [0])))))
    }

    /** The bytes: 24 of header, the fields, and 20 of signature. */
    ghost predicate Shows(b: seq<U8>, sig: seq<U8>)
      reads this
    {
      var end := 24 + |Fields()|;
      end + 20 <= |b| && b[..24] == head && b[24..end] == Fields() && b[end..end + 20] == sig
    }

    lemma FieldsAreStrings()
      ensures Fields() == Strings(Texts())
    {
      StringsSix(Texts());
    }

    ghost predicate Valid()
      reads this
    {
      AreStrings(Texts()) && |signature| == SIGNATURE_SIZE
    }

    method CreateSignature() returns (s: seq<U8>)
      ensures s == mac(Signed(head, Texts())) && |s| == SIGNATURE_SIZE
      ensures s == mac(head + Fields())
    {
      FieldsAreStrings();
      hide Fields;
      var texts := Texts();
      var signed: seq<U8> := head;
      var i := 0;
      assert texts[0..] == texts;
      while i < |texts|
        invariant 0 <= i <= |texts| && signed + Strings(texts[i..]) == Signed(head, texts)
      {
        assert texts[i..][1..] == texts[i + 1..];
        Assoc(signed, texts[i] + [NUL8], Strings(texts[i + 1..]));
        signed := signed + (texts[i] + [NUL8]);
        i := i + 1;
      }
      assert signed + [] == signed;
      s := mac(signed);
    }

    method ValidSignature() returns (ok: bool)
      requires Valid()
      ensures ok == (signature == mac(Signed(head, Texts())))
      ensures ok == (signature == mac(head + Fields()))
    {
      var s := CreateSignature();
      ok := s == signature;
    }

    function ByteSize(): (n: nat)
      reads this`artist, this`title, this`album, this`composer, this`orchestra, this`soloist
      ensures n == |Serialised(mac, head, Texts())|
    {
      StringsSize(Texts());
      HEAD_SIZE + SIGNATURE_SIZE
      + (1 + |Known(artist)|) + (1 + |Known(title)|) + (1 + |Known(album)|)
      + (1 + |Known(composer)|) + (1 + |Known(orchestra)|) + (1 + |Known(soloist)|)
    }

    /** `copyToBytes`: the certificate, as version 0, and its signature. */
    method CopyToBytes(buffer: array<U8>) returns (ok: bool)
      requires Valid()
      modifies this`head, buffer
      ensures Valid() && ok == (buffer.Length >= ByteSize())
      ensures !ok ==> head == old(head) && buffer[..] == old(buffer[..])
      ensures ok ==> head == old(head)[0 := 0] && buffer[..ByteSize()] == Serialised(mac, head, Texts())
      ensures ok ==> forall k | ByteSize() <= k < buffer.Length :: buffer[k] == old(buffer[k])
      ensures ByteSize() == 44 + |Fields()|
      ensures ok ==> head[0] == 0 && head[1..] == old(head)[1..]
      ensures ok ==> Shows(buffer[..], mac(head + Fields()))
    {
      SizeOfFields();
      hide Fields, Serialised, AreStrings, Texts, Known;
      if buffer.Length < ByteSize() {
        return false;
      }
      head := head[0 := 0];
      WriteBytes(buffer);
      SerialisedShows(buffer[..]);
      return true;
    }

    lemma SizeOfFields()
      ensures ByteSize() == 44 + |Fields()|
    {
      StringsSize(Texts());
      FieldsAreStrings();
    }

    lemma SerialisedShows(b: seq<U8>)
      requires Serialised(mac, head, Texts()) <= b
      ensures Shows(b, mac(head + Fields()))
    {
      FieldsAreStrings();
      var f, m := Fields(), mac(head + Fields());
      hide Fields, Strings;
      assert b[..24 + |f| + 20] == head + f + m;
    }

    method WriteBytes(buffer: array<U8>)
      requires buffer.Length >= ByteSize()
      modifies buffer
      ensures buffer[..ByteSize()] == Serialised(mac, head, Texts())
      ensures forall k | ByteSize() <= k < buffer.Length :: buffer[k] == old(buffer[k])
    {
      hide Strings, AreStrings;
      StringsSize(Texts());
      Copy(buffer, 0, head);
      var ptr := PutStrings(buffer);
      var s := CreateSignature();
      Copy(buffer, ptr, s);
    }

    method PutStrings(buffer: array<U8>) returns (ptr: nat)
      requires buffer.Length >= ByteSize() && buffer[..HEAD_SIZE] == head
      modifies buffer
      ensures ptr == HEAD_SIZE + |Strings(Texts())| && ptr <= buffer.Length
      ensures buffer[..ptr] == Signed(head, Texts())
      ensures forall k | ptr <= k < buffer.Length :: buffer[k] == old(buffer[k])
    {
      hide Strings, AreStrings, Serialised, Known;
      StringsSize(Texts());
      StringsNone();
      ptr := HEAD_SIZE;
      assert buffer[..ptr] == head + [];
      ptr := PutThree(buffer, ptr, artist, title, album, head, []);
      ghost var three := [] + [Known(artist)] + [Known(title)] + [Known(album)];
      ptr := PutThree(buffer, ptr, composer, orchestra, soloist, head, three);
      assert three + [Known(composer)] + [Known(orchestra)] + [Known(soloist)] == Texts();
    }

    /** `getFromBytes`: what follows is not checked to be there, only that the buffer is not too small. */
    method GetFromBytes(buffer: array<U8>) returns (ok: bool)
      requires buffer.Length >= HEAD_SIZE + SIGNATURE_SIZE + 6 ==> Whole(buffer[..])
      modifies this
      ensures ok == (buffer.Length >= 50)
      ensures !ok ==> unchanged(this)
      ensures ok ==> Valid() && Is(buffer[..])
      ensures ok ==> Shows(buffer[..], signature)
      ensures ok ==> artist.Some? && title.Some? && album.Some? && composer.Some? && orchestra.Some? && soloist.Some?
    {
      hide ReadStrings, Fields, AreStrings;
      if buffer.Length < HEAD_SIZE + SIGNATURE_SIZE + 6 {
        return false;
      }
      head := buffer[..HEAD_SIZE];
      StringsCanonical(buffer[..], HEAD_SIZE, 6);
      var ptr := TakeFields(buffer);
      signature := buffer[ptr..ptr + SIGNATURE_SIZE];
      IsShows(buffer[..]);
      return true;
    }

    method TakeFields(buffer: array<U8>) returns (ptr: nat)
      requires buffer.Length >= HEAD_SIZE && ReadStrings(buffer[..], HEAD_SIZE, 6).Some?
      modifies this`artist, this`title, this`album, this`composer, this`orchestra, this`soloist
      ensures (Texts(), ptr) == ReadStrings(buffer[..], HEAD_SIZE, 6).value
      ensures artist.Some? && title.Some? && album.Some? && composer.Some? && orchestra.Some? && soloist.Some?
    {
      hide ReadStrings;
      var s;
      ptr := HEAD_SIZE;
      s, ptr := TakeString(buffer, ptr, 6);
      artist := Some(s);
      s, ptr := TakeString(buffer, ptr, 5);
      title := Some(s);
      s, ptr := TakeString(buffer, ptr, 4);
      album := Some(s);
      s, ptr := TakeString(buffer, ptr, 3);
      composer := Some(s);
      s, ptr := TakeString(buffer, ptr, 2);
      orchestra := Some(s);
      s, ptr := TakeString(buffer, ptr, 1);
      soloist := Some(s);
      ReadNone(buffer[..], ptr);
      assert Texts() == ReadStrings(buffer[..], HEAD_SIZE, 6).value.0;
    }

    lemma IsShows(b: seq<U8>)
      requires Whole(b) && Is(b)
      ensures Shows(b, signature)
    {
      StringsCanonical(b, HEAD_SIZE, 6);
      StringsSize(Texts());
      FieldsAreStrings();
      hide ReadStrings, Fields;
    }

    /** The certificate is what the bytes say. */
    ghost predicate Is(b: seq<U8>)
      requires Whole(b)
      reads this
    {
      var (ss, end) := ReadStrings(b, HEAD_SIZE, 6).value;
      head == b[..HEAD_SIZE] && Texts() == ss && signature == b[end..end + SIGNATURE_SIZE]
    }

    /** The round trip: what is read from the bytes of a certificate, whatever lies behind them, is
        that certificate, as version 0, and its signature is valid. */
    lemma RoundTrip(was: Head, texts: seq<seq<U8>>, after: seq<U8>)
      requires |texts| == 6 && AreStrings(texts)
      ensures var b := Serialised(mac, was[0 := 0], texts) + after;
              && |b| >= HEAD_SIZE + SIGNATURE_SIZE + 6 && Whole(b)
              && (Is(b) ==> head == was[0 := 0] && Texts() == texts && signature == mac(Signed(head, Texts())))
    {
      SerialisedAt(mac, was[0 := 0], texts, after);
    }

    /** A certificate that was read is valid exactly if the bytes before the signature are what
        was signed, and those are the bytes that it would be written as. */
    lemma ValidExactly(b: seq<U8>)
      requires Whole(b) && Is(b)
      ensures var end := ReadStrings(b, HEAD_SIZE, 6).value.1;
              && Signed(head, Texts()) == b[..end]
              && (signature == mac(Signed(head, Texts())) <==> b[end..end + SIGNATURE_SIZE] == mac(b[..end]))
    {
      StringsCanonical(b, HEAD_SIZE, 6);
      var end := ReadStrings(b, HEAD_SIZE, 6).value.1;
      assert b[..end] == b[..HEAD_SIZE] + b[HEAD_SIZE..end];
    }
  }

  /** The bytes hold six strings after the header, and a signature. */
  ghost predicate Whole(b: seq<U8>) {
    && |b| >= HEAD_SIZE && ReadStrings(b, HEAD_SIZE, 6).Some?
    && ReadStrings(b, HEAD_SIZE, 6).value.1 + SIGNATURE_SIZE <= |b|
  }

  lemma SerialisedAt(mac: Mac, h: Head, texts: seq<seq<U8>>, after: seq<U8>)
    requires |texts| == 6 && AreStrings(texts)
    ensures var b := Serialised(mac, h, texts) + after;
            && |b| >= HEAD_SIZE + SIGNATURE_SIZE + 6 && Whole(b) && b[..HEAD_SIZE] == h
            && var (ss, end) := ReadStrings(b, HEAD_SIZE, 6).value;
            ss == texts && b[end..end + SIGNATURE_SIZE] == mac(Signed(h, texts))
  {
    hide Strings, ReadStrings;
    var s, m := Strings(texts), mac(Signed(h, texts));
    var b := h + s + m + after;
    StringsSize(texts);
    AtPrefix(b, h + s + m);
    AtSplit(b, 0, h + s, m);
    AtSplit(b, 0, h, s);
    StringsRoundTrip(b, HEAD_SIZE, texts);
    AtSlice(b, 0, h);
    AtSlice(b, HEAD_SIZE + |s|, m);
  }

  lemma AtSlice(b: seq<U8>, i: nat, s: seq<U8>)
    requires At(b, i, s)
    ensures b[i..i + |s|] == s
  {
  }

  lemma AtPrefix(b: seq<U8>, c: seq<U8>)
    requires c <= b
    ensures At(b, 0, c)
  {
  }

  lemma StringsNone()
    ensures Strings([]) == []
  {
  }

  lemma {:induction false} StringsMore(ss: seq<seq<U8>>, s: seq<U8>)
    ensures Strings(ss + [s]) == Strings(ss) + (s + [NUL8])
  {
    if ss == [] {
      assert Strings([s]) == s + [NUL8] + Strings([s][1..]);
    } else {
      assert (ss + [s])[1..] == ss[1..] + [s];
      StringsMore(ss[1..], s);
      Assoc(ss[0] + [NUL8], Strings(ss[1..]), s + [NUL8]);
    }
  }

  /** One string, or a lone NUL for one that is missing. */
  method PutString(buffer: array<U8>, ptr: nat, s: Option<seq<U8>>, ghost head: Head, ghost ss: seq<seq<U8>>)
    returns (end: nat)
    requires ptr + |Known(s)| + 1 <= buffer.Length && buffer[..ptr] == head + Strings(ss)
    modifies buffer
    ensures end == ptr + |Known(s)| + 1 && buffer[..end] == head + Strings(ss + [Known(s)])
    ensures forall k | end <= k < buffer.Length :: buffer[k] == old(buffer[k])
  {
    match s {
      case Some(t) => Copy(buffer, ptr, t + [NUL8]);
      case None => Copy(buffer, ptr, [NUL8]);
    }
    end := ptr + |Known(s)| + 1;
    assert buffer[..end] == old(buffer[..ptr]) + (Known(s) + [NUL8]);
    StringsMore(ss, Known(s));
    Assoc(head, Strings(ss), Known(s) + [NUL8]);
  }

  method PutThree(buffer: array<U8>, ptr: nat, x: Option<seq<U8>>, y: Option<seq<U8>>, z: Option<seq<U8>>,
                  ghost head: Head, ghost ss: seq<seq<U8>>)
    returns (end: nat)
    requires ptr + |Known(x)| + |Known(y)| + |Known(z)| + 3 <= buffer.Length && buffer[..ptr] == head + Strings(ss)
    modifies buffer
    ensures end == ptr + |Known(x)| + |Known(y)| + |Known(z)| + 3
    ensures buffer[..end] == head + Strings(ss + [Known(x)] + [Known(y)] + [Known(z)])
    ensures forall k | end <= k < buffer.Length :: buffer[k] == old(buffer[k])
  {
    hide Strings, Known;
    end := PutString(buffer, ptr, x, head, ss);
    end := PutString(buffer, end, y, head, ss + [Known(x)]);
    end := PutString(buffer, end, z, head, ss + [Known(x)] + [Known(y)]);
  }

  lemma ReadNone(b: seq<U8>, i: nat)
    ensures ReadStrings(b, i, 0) == Some(([], i))
  {
  }

  /** One string, with the position after its NUL. */
  method TakeString(buffer: array<U8>, ptr: nat, ghost n: nat) returns (s: seq<U8>, next: nat)
    requires n > 0 && ReadStrings(buffer[..], ptr, n).Some?
    ensures ReadStrings(buffer[..], next, n - 1).Some? && next <= buffer.Length
    ensures ReadStrings(buffer[..], ptr, n).value
         == ([s] + ReadStrings(buffer[..], next, n - 1).value.0, ReadStrings(buffer[..], next, n - 1).value.1)
  {
    next := ptr;
    while buffer[next] != NUL8
      invariant ptr <= next <= StrEnd(buffer[..], ptr)
      decreases buffer.Length - next
    {
      next := next + 1;
    }
    s := buffer[ptr..next];
    assert s == CString(buffer[..], ptr);
    next := next + 1;
  }

  lemma StringsSix(ss: seq<seq<U8>>)
    requires |ss| == 6
    ensures Strings(ss) == ss[0] + [0] + (ss[1] + [0] + (ss[2] + [0] + (ss[3] + [0] + (ss[4] + [0] + (ss[5] + [0])))))
  {
    assert forall k | 0 <= k < 6 :: ss[k..][1..] == ss[k + 1..];
    assert Strings(ss[6..]) == [];
    assert Strings(ss[5..]) == ss[5] + [0];
    assert Strings(ss[4..]) == ss[4] + [0] + Strings(ss[5..]);
    assert Strings(ss[3..]) == ss[3] + [0] + Strings(ss[4..]);
    assert Strings(ss[2..]) == ss[2] + [0] + Strings(ss[3..]);
    assert Strings(ss[1..]) == ss[1] + [0] + Strings(ss[2..]);
    assert ss[0..] == ss;
  }

  lemma StringsSize(ss: seq<seq<U8>>)
    requires |ss| == 6
    ensures |Strings(ss)| == 6 + |ss[0]| + |ss[1]| + |ss[2]| + |ss[3]| + |ss[4]| + |ss[5]|
  {
    assert |Strings(ss[6..])| == 0;
    assert forall k | 0 <= k < 6 :: ss[k..][1..] == ss[k + 1..];
    assert |Strings(ss[5..])| == |ss[5]| + 1;
    assert |Strings(ss[4..])| == |ss[4]| + 1 + |Strings(ss[5..])|;
    assert |Strings(ss[3..])| == |ss[3]| + 1 + |Strings(ss[4..])|;
    assert |Strings(ss[2..])| == |ss[2]| + 1 + |Strings(ss[3..])|;
    assert |Strings(ss[1..])| == |ss[1]| + 1 + |Strings(ss[2..])|;
    assert ss[0..] == ss;
  }
}