/** Taking the next argument off a text command, in the buffer it arrived in. */
module TextReader {
  import opened Options
  import opened Bytes
  import opened Arguments

  /** What a call of `get_next_argument` leaves: the buffer, the caller's position (`None` is the
      null pointer) and where the argument begins. */
  datatype Next = Next(ok: bool, b: seq<U8>, src: Option<nat>, begin: nat)

  /** Past any spaces. */
  function Skip(b: seq<U8>, i: nat): (n: nat)
    requires Terminated(b, i)
    ensures i <= n < |b| && Terminated(b, n) && b[n] != SPACE
    decreases |b| - i
  {
    if b[i] == SPACE then Skip(b, i + 1) else i
  }

  /** Back to the last quote, but not before `begin`. */
  function Back(b: seq<U8>, begin: nat, end: int): (n: int)
    requires begin - 1 <= end < |b|
    ensures begin - 1 <= n <= end && (begin <= end ==> begin <= n)
    ensures n <= begin || b[n] == QUOTE
    decreases end
  {
    if end > begin && b[end] != QUOTE then Back(b, begin, end - 1) else end
  }

  lemma TerminatedAfter(b: seq<U8>, i: nat, e: nat)
    requires Terminated(b, i) && i <= e < StrEnd(b, i)
    ensures Terminated(b[e := NUL8], e + 1) && Terminated(b, e + 1)
  {
    assert b[e := NUL8][StrEnd(b, i)] == NUL8;
  }

  /** Specification of `get_next_argument` for a non-null position. */
  function NextArgument(b: seq<U8>, i: nat): (r: Next)
    requires Terminated(b, i)
    ensures |r.b| == |b| && Terminated(r.b, r.begin)
    ensures r.src.Some? ==> Terminated(r.b, r.src.value)
  {
    match StrChr(b, i, SPACE)
    case Some(e) =>
      if b[i] != QUOTE then
        TerminatedAfter(b, i, e);
        Next(true, b[e := NUL8], Some(Skip(b[e := NUL8], e + 1)), i)
      else
        (match StrChr(b, i + 1, QUOTE)
         case Some(q) =>
           TerminatedAfter(b, i + 1, q);
           Next(true, b[q := NUL8], Some(Skip(b[q := NUL8], q + 1)), i + 1)
         case None => Next(false, b, None, i + 1))
    case None =>
      if b[i] == QUOTE then
        var end := Back(b, i + 1, StrEnd(b, i + 1) - 1);
        if end == i + 1 then Next(false, b, Some(i + 1), i + 1)
        else
          assert b[end := NUL8][StrEnd(b, i + 1)] == NUL8;
          Next(b[end := NUL8][i + 1] != NUL8, b[end := NUL8], None, i + 1)
      else Next(b[i] != NUL8, b, None, i)
  }

  method GetNextArgument(buf: array<U8>, src: Option<nat>) returns (ok: bool, src': Option<nat>, begin: nat)
    requires src.Some? ==> Terminated(buf[..], src.value)
    modifies buf
    ensures src == None ==> !ok && src' == None && buf[..] == old(buf[..])
    ensures src.Some? ==> Next(ok, buf[..], src', begin) == NextArgument(old(buf[..]), src.value)
  {
    begin := 0;
    if src == None {
      return false, None, 0;
    }
    hide NextArgument, StrChr;
    var space := StrChr(buf[..], src.value, SPACE);
    if space.Some? {
      ok, src', begin := ArgumentBefore(buf, src.value, space.value);
    } else {
      ok, src', begin := LastArgument(buf, src.value);
    }
  }

  /** With a space further on, the argument ends there, or at its second quote. */
  method ArgumentBefore(buf: array<U8>, i: nat, space: nat) returns (ok: bool, src': Option<nat>, begin: nat)
    requires Terminated(buf[..], i) && StrChr(buf[..], i, SPACE) == Some(space)
    modifies buf
    ensures Next(ok, buf[..], src', begin) == NextArgument(old(buf[..]), i)
  {
    hide Skip, Back, StrChr, Without, StrEnd;
    ghost var b := buf[..];
    if buf[i] != QUOTE {
      TerminatedAfter(b, i, space);
      var end := EndArgument(buf, space);
      return true, Some(end), i;
    }
    begin := i + 1;
    var quote := StrChr(buf[..], begin, QUOTE);
    if quote == None {
      return false, None, begin;
    }
    TerminatedAfter(b, begin, quote.value);
    var end := EndArgument(buf, quote.value);
    return true, Some(end), begin;
  }

  /** Without one, it is the last; a quote at its beginning goes, and so does all from the last quote. */
  method LastArgument(buf: array<U8>, i: nat) returns (ok: bool, src': Option<nat>, begin: nat)
    requires Terminated(buf[..], i) && StrChr(buf[..], i, SPACE) == None
    modifies buf
    ensures Next(ok, buf[..], src', begin) == NextArgument(old(buf[..]), i)
  {
    hide Skip, Back, StrChr, Without, StrEnd;
    begin := i;
    if buf[i] == QUOTE {
      begin := i + 1;
      var end := LastQuote(buf, begin);
      if end == begin {
        return false, Some(begin), begin;
      }
      buf[end] := NUL8;
    }
    return buf[begin] != NUL8, None, begin;
  }

  /** The overload that refuses what is not shorter than `limit`, though it has been taken. */
  method GetNextWithin(buf: array<U8>, src: Option<nat>, limit: nat) returns (ok: bool, src': Option<nat>, begin: nat)
    requires src.Some? ==> Terminated(buf[..], src.value)
    modifies buf
    ensures src == None ==> !ok && src' == None && buf[..] == old(buf[..])
    ensures src.Some? ==>
              var n := NextArgument(old(buf[..]), src.value);
              buf[..] == n.b && src' == n.src && begin == n.begin && ok == (n.ok && |CString(n.b, n.begin)| < limit)
  {
    hide NextArgument, StrEnd;
    ok, src', begin := GetNextArgument(buf, src);
    ok := ok && |CString(buf[..], begin)| < limit;
  }

  /** The overload that reads a number. */
  method GetNextNumber(buf: array<U8>, src: Option<nat>) returns (field: Option<nat>, src': Option<nat>)
    requires src.Some? ==> Terminated(buf[..], src.value)
    modifies buf
    ensures src == None ==> field == None && src' == None && buf[..] == old(buf[..])
    ensures src.Some? ==>
              var n := NextArgument(old(buf[..]), src.value);
              buf[..] == n.b && src' == n.src
              && field == if n.ok then Some(Strtoul(CString(n.b, n.begin))) else None
  {
    hide NextArgument, StrEnd, Strtoul;
    var ok, begin;
    ok, src', begin := GetNextArgument(buf, src);
    field := if ok then Some(Strtoul(CString(buf[..], begin))) else None;
  }

  /** From the end of the string at `begin` back to its last quote. */
  method LastQuote(buf: array<U8>, begin: nat) returns (end: int)
    requires Terminated(buf[..], begin)
    ensures end == Back(buf[..], begin, StrEnd(buf[..], begin) - 1)
  {
    ghost var b := buf[..];
    end := begin;
    while buf[end] != NUL8
      invariant begin <= end <= StrEnd(b, begin)
      decreases StrEnd(b, begin) - end
    {
      end := end + 1;
    }
    end := end - 1;
    while end > begin && buf[end] != QUOTE
      invariant begin - 1 <= end < |b|
      invariant Back(b, begin, StrEnd(b, begin) - 1) == Back(b, begin, end)
    {
      end := end - 1;
    }
  }

  /** End an argument at `e` and go on to the next. */
  method EndArgument(buf: array<U8>, e: nat) returns (end: nat)
    requires e < buf.Length && Terminated(buf[..][e := NUL8], e + 1)
    modifies buf
    ensures buf[..] == old(buf[..])[e := NUL8] && end == Skip(buf[..], e + 1)
  {
    ghost var b := buf[..][e := NUL8];
    buf[e] := NUL8;
    assert buf[..] == b;
    end := e + 1;
    while buf[end] == SPACE
      invariant Terminated(b, end) && Skip(b, end) == Skip(b, e + 1)
      decreases |b| - end
    {
      end := end + 1;
    }
  }
}
