/**
 One connection of the server, driven by whatever its system calls return.
 The client's bytes, the files and the results of the calls are parameters; the bytes handed to the
 socket are recorded.
 */
module HttpsServer {
  import opened Basics
  import opened HttpsRange
  import opened HttpsText
  import opened HttpsRequest
  import opened HttpsReply

  datatype State = Handshake | Reading | Writing | Closing

  /** What a call returns: would block, EINTR, an error, or how much was moved. */
  datatype Io = Wait | Interrupted | Failed | Moved(n: nat)

  /** How Drive returns: to wait for readiness, to let others run, done, or broken off. */
  datatype Outcome = Waits | Yields | Closed | Broken

  /** A call to write data that lies at a place in the output buffer; None if nothing was taken. */
  datatype Write = Write(at: nat, data: string, taken: Option<nat>)

  const YIELD_AFTER := 0x1_0000

  /** The result of the next call; a call beyond the last is one that would block. */
  function Result(io: seq<Io>, at: nat): Io {
    if at < |io| then io[at] else Wait
  }

  function Next(io: seq<Io>, at: nat): nat {
    if at < |io| then at + 1 else at
  }

  /** Some call fails, or finds the other side gone. */
  predicate Faulty(io: seq<Io>) {
    exists i :: 0 <= i < |io| && (io[i].Failed? || io[i] == Moved(0))
  }

  /** Some call would block or is interrupted. */
  predicate Blocking(io: seq<Io>) {
    exists i :: 0 <= i < |io| && (io[i].Wait? || io[i].Interrupted?)
  }

  /** The first call moves something. */
  predicate Helpful(io: seq<Io>) {
    io != [] && io[0].Moved? && io[0].n > 0
  }

  /** Drive only moves on to a later state when it makes no call. */
  function Rank(state: State): nat {
    match state case Handshake => 3 case Reading => 2 case Writing => 1 case Closing => 0
  }

  /** The bytes of one write that were taken. */
  ghost function Reached(w: Write): string {
    if w.taken.Some? && w.taken.value <= |w.data| then w.data[..w.taken.value] else ""
  }

  /** The bytes that reached the wire. */
  ghost function Wire(writes: seq<Write>): string {
    if writes == [] then ""
    else
      Wire(writes[..|writes| - 1]) + Reached(writes[|writes| - 1])
  }

  /** A write that was not taken is repeated as it was: same place, same data. */
  ghost predicate Repeats(writes: seq<Write>) {
    forall i | 0 < i < |writes| && writes[i - 1].taken.None? ::
      writes[i].at == writes[i - 1].at && writes[i].data == writes[i - 1].data
  }

  lemma WireAppend(writes: seq<Write>, w: Write)
    ensures Wire(writes + [w]) == Wire(writes) + Reached(w)
  {
    assert (writes + [w])[..|writes|] == writes;
  }

  lemma RepeatsAppend(writes: seq<Write>, w: Write)
    requires Repeats(writes)
    requires writes != [] && writes[|writes| - 1].taken.None? ==>
      w.at == writes[|writes| - 1].at && w.data == writes[|writes| - 1].data
    ensures Repeats(writes + [w])
  {}

  lemma Regroup(a: string, b: string, c: string, d: string)
    ensures a + ((b + c) + d) == (a + b) + (c + d)
  {}

  class Connection {
    const tls: bool
    const stream: string
    const files: Files
    const input: array<char>
    const output: array<char>
    var state: State
    var used: nat
    var sent: nat
    var outputLen: nat
    var file: string
    var fileOffset: nat
    var fileRemaining: nat
    ghost var writes: seq<Write>

    ghost predicate Shaped()
      reads this
    {
      && input.Length == INPUT_SIZE && output.Length == OUTPUT_SIZE && input != output && Sized(files)
      && used < INPUT_SIZE && used <= |stream|
      && sent <= outputLen <= OUTPUT_SIZE && fileOffset + fileRemaining <= |file|
    }

    /** What is still to be written. */
    ghost function Pending(): string
      requires Shaped()
      reads this, output
    {
      output[sent..outputLen] + file[fileOffset..fileOffset + fileRemaining]
    }

    /** The header is still coming in. */
    ghost predicate Gathering()
      requires Shaped()
      reads this, input
    {
      && input[..used] == stream[..used] && StrStr(stream[..used], 0, BLANK).None?
      && sent == outputLen == 0 && fileRemaining == 0 && writes == []
    }

    /** What was written and what is pending make up the answer. */
    ghost predicate Answering()
      requires Shaped()
      reads this, output
    {
      && !Decide(stream[..used]).Waiting?
      && Wire(writes) + Pending() == AnswerBytes(Decide(stream[..used]), tls, files)
      && Repeats(writes)
      && (writes != [] && writes[|writes| - 1].taken.None? ==>
        var w := writes[|writes| - 1];
        state.Writing? && sent < outputLen && w.at == sent && w.data == output[sent..outputLen])
    }

    ghost predicate Valid()
      reads this, input, output
    {
      && Shaped()
      && (state.Handshake? || state.Reading? ==> Gathering())
      && (state.Writing? || state.Closing? ==> Answering())
      && (state.Closing? ==> sent == outputLen && fileRemaining == 0)
    }

    /** Twice the length of the answer, once it is clear that there will be one. */
    ghost function Budget(): nat
      requires Sized(files)
    {
      if Decide(stream).Waiting? then 0 else 2 * |AnswerBytes(Decide(stream), tls, files)|
    }

    /** How many calls that move something the connection can still make. */
    ghost function Work(): nat
      requires Shaped()
      reads this
    {
      match state
      case Handshake => 2 + (INPUT_SIZE - used) + Budget()
      case Reading => 1 + (INPUT_SIZE - used) + Budget()
      case Writing => 1 + (outputLen - sent) + 2 * fileRemaining
      case Closing => 1
    }

    /** As accept_clients sets a connection up. */
    constructor (tls: bool, stream: string, files: Files)
      requires Sized(files)
      ensures Valid() && this.tls == tls && this.stream == stream && this.files == files
      ensures fresh(input) && fresh(output) && writes == [] && state == if tls then Handshake else Reading
    {
      this.tls, this.stream, this.files := tls, stream, files;
      input := new char[INPUT_SIZE];
      output := new char[OUTPUT_SIZE];
      state := if tls then Handshake else Reading;
      used, sent, outputLen, file, fileOffset, fileRemaining, writes := 0, 0, 0, "", 0, 0, [];
    }

    /** Puts a header into the output buffer. */
    method PutHeader(text: string) returns (ok: bool)
      requires output.Length == OUTPUT_SIZE
      modifies this`sent, this`outputLen, output
      ensures ok <==> |text| < OUTPUT_SIZE
      ensures ok ==> outputLen == |text| && sent == 0 && output[..outputLen] == text
      ensures !ok ==> sent == old(sent) && outputLen == old(outputLen)
    {
      if |text| >= OUTPUT_SIZE { return false; }
      forall i | 0 <= i < |text| { output[i] := text[i]; }
      output[|text|] := NUL;
      outputLen, sent := |text|, 0;
      return true;
    }

    /** Answers the complete header in the input buffer. */
    method BuildResponse() returns (ok: bool)
      requires Shaped() && fileRemaining == 0
      modifies this`sent, this`outputLen, this`file, this`fileOffset, this`fileRemaining, input, output
      ensures !ok ==> !Fits(Parsed(old(input[..])), tls, files)
      ensures ok ==> Shaped() && sent == 0
      ensures ok ==> output[..outputLen] == Respond(Parsed(old(input[..])), tls, files).header
      ensures ok ==> file[fileOffset..fileOffset + fileRemaining] == Respond(Parsed(old(input[..])), tls, files).body
    {
      hide Holds, Parsed, Empty, FileHeader, ContentRange, Location, Choose, RangeOf, StrEnd;
      ghost var request := Parsed(input[..]);
      var pointers := ParseRequest(input);
      if pointers.None? {
        ok := PutHeader(Empty("400", "Bad Request", ""));
        return;
      }
      ghost var q := request.value;
      HoldsIsStr(input[..], pointers.value.target, q.target);
      HoldsIsStr(input[..], pointers.value.method_, q.method_);
      var target := Str(input[..], pointers.value.target);
      if !tls {
        var location := Location(target);
        if |location| >= LOCATION_SIZE { return false; }
        ok := PutHeader(Empty("301", "Moved Permanently", location));
        return;
      }
      if Str(input[..], pointers.value.method_) != "GET" {
        ok := PutHeader(Empty("405", "Method Not Allowed", "Allow: GET\r\n"));
        return;
      }
      var found := files(target);
      if found.None? {
        ok := PutHeader(Empty("404", "Not Found", ""));
        return;
      }
      file, fileOffset := found.value, 0;
      var range := None;
      if pointers.value.range.Some? {
        HoldsIsStr(input[..], pointers.value.range.value, q.range.value);
        range := Some(Str(input[..], pointers.value.range.value));
      }
      ok := OpenFile(q, target, range);
    }

    /** Selects the range of an open file and announces it. */
    method OpenFile(ghost q: Request, target: string, range: Option<string>) returns (ok: bool)
      requires output.Length == OUTPUT_SIZE && |file| <= OFF_MAX && q.target == target && q.range == range
      requires fileRemaining == 0 && fileOffset == 0
      modifies this`sent, this`outputLen, this`fileOffset, this`fileRemaining, output
      ensures ok <==> |FileReply(q, file).header| < OUTPUT_SIZE
      ensures ok ==> sent == 0 && outputLen < OUTPUT_SIZE && output[..outputLen] == FileReply(q, file).header
      ensures ok ==> fileOffset + fileRemaining <= |file|
      ensures ok ==> file[fileOffset..fileOffset + fileRemaining] == FileReply(q, file).body
    {
      hide Empty, FileHeader, ContentRange, Choose, RangeOf;
      var size := |file|;
      var selection := SelectRange(range, size);
      ChooseIsRight(Saturated(RangeOf(range)), size);
      if selection.Unsatisfiable? {
        ok := PutHeader(Empty("416", "Range Not Satisfiable", ContentRange(selection, size)));
        return;
      }
      var first, length := 0, size;
      if selection.Part? {
        first, length := selection.first, selection.length;
      }
      ok := PutHeader(FileHeader(target, selection, length, size));
      if ok {
        fileOffset, fileRemaining := first, length;
      }
    }

    /** The answer's header is too long to be built. */
    ghost predicate Overflowing()
      reads this
    {
      && used <= |stream| && Sized(files) && !Decide(stream[..used]).Waiting?
      && !AnswerFits(Decide(stream[..used]), tls, files)
    }

    /** Recognises a blank line among the bytes received, whatever the buffer holds behind them. */
    lemma FindsBlank()
      requires input.Length == INPUT_SIZE && used < INPUT_SIZE && used <= |stream|
      requires input[used] == NUL && input[..used] == stream[..used]
      ensures StrStr(input[..], 0, BLANK) == StrStr(stream[..used], 0, BLANK)
      ensures StrStr(stream[..used], 0, BLANK).Some? ==>
        Decide(stream[..used]).Complete? && Parsed(input[..]) == ParseHead(Decide(stream[..used]).head)
    {
      StrStrTerminated(input[..], used, 0, BLANK);
      assert input[..][..used] == stream[..used] == stream[..used][..used];
      var r := StrStr(stream[..used], 0, BLANK);
      if r.Some? {
        assert input[..][..r.value] == input[..used][..r.value];
      }
      hide ParseHead, StrStr;
    }

    /** Where there is nothing more to read, the client's bytes call for no answer. */
    lemma EndedEarly()
      requires Valid() && state.Reading? && used < INPUT_SIZE - 1
      ensures used == |stream| ==> Decide(stream).Waiting?
    {
      if used == |stream| {
        assert stream[..used] == stream == stream[..Min(|stream|, INPUT_SIZE - 1)];
      }
      hide StrStr;
    }

    /** A new answer is within budget. */
    lemma AnswerWithinBudget()
      requires Valid() && state.Writing? && writes == []
      ensures Work() <= 1 + Budget()
    {
      DecisionIsFinal(stream[..used], stream);
      assert |Pending()| == |AnswerBytes(Decide(stream[..used]), tls, files)|;
      hide Decide, AnswerBytes;
    }

    /** One call to receive, with the request answered if its header is now complete. */
    method Receive(e: Io) returns (r: Option<Outcome>)
      requires Valid() && state.Reading? && used < INPUT_SIZE - 1
      modifies this, input, output
      ensures writes == old(writes) && WireIsRight() && old(used) <= used <= |stream|
      ensures r != Some(Broken) ==> Valid() && used < INPUT_SIZE
      ensures r == Some(Broken) ==> e.Failed? || e == Moved(0) || Decide(stream).Waiting? || Overflowing()
      ensures r == None ==> state.Writing? || state.Reading?
      ensures r.Some? ==> r.value != Closed && r.value != Yields
      ensures e.Wait? ==> r.Some?
      ensures r == Some(Waits) ==> e.Wait? || e.Interrupted?
      ensures r == None && e.Moved? ==> Work() < old(Work())
      ensures r != Some(Broken) && !e.Moved? ==> Work() == old(Work())
    {
      hide StrStr, Decide, Budget;
      match e
      case Wait => return Some(Waits);
      case Interrupted => return if tls then Some(Waits) else None;
      case Failed => return Some(Broken);
      case Moved(n) =>
        var room := INPUT_SIZE - 1 - used;
        var count := Min(n, Min(room, |stream| - used));
        if count == 0 {
          EndedEarly();
          return Some(Broken);
        }
        r := Take(count);
    }

    /** Takes so many of the client's bytes into the buffer, and answers if the header is complete. */
    method Take(count: nat) returns (r: Option<Outcome>)
      requires Valid() && state.Reading? && 0 < count <= |stream| - used && used + count < INPUT_SIZE
      modifies this, input, output
      ensures writes == old(writes) == [] && WireIsRight() && used == old(used) + count
      ensures r == None ==> Valid() && (state.Writing? || state.Reading?) && Work() < old(Work())
      ensures r.Some? ==> r.value == Broken && Overflowing()
    {
      hide StrStr, Decide, Answering, Budget, Overflowing;
      forall i | 0 <= i < count { input[used + i] := stream[used + i]; }
      assert input[..used + count] == stream[..used + count];
      used := used + count;
      input[used] := NUL;
      FindsBlank();
      if StrStr(input[..], 0, BLANK).None? { return None; }
      var ok := Answer();
      return if ok then None else Some(Broken);
    }

    /** Answers the complete header in the input buffer, and starts to write. */
    method Answer() returns (ok: bool)
      requires Shaped() && state.Reading? && sent == outputLen == 0 && fileRemaining == 0 && writes == []
      requires input[..used] == stream[..used] && input[used] == NUL && StrStr(input[..], 0, BLANK).Some?
      modifies this`state, this`sent, this`outputLen, this`file, this`fileOffset, this`fileRemaining, input, output
      ensures ok ==> Valid() && state.Writing? && Work() <= 1 + Budget()
      ensures !ok ==> Overflowing()
    {
      hide StrStr, Fits, Parsed, Respond, ParseHead, Decide, Budget;
      FindsBlank();
      ok := BuildResponse();
      if ok {
        state := Writing;
        assert Pending() == AnswerBytes(Decide(stream[..used]), tls, files);
        AnswerWithinBudget();
      }
    }

    /** One call to send what is left of the buffer. */
    method Send(e: Io) returns (r: Option<Outcome>)
      requires Valid() && state.Writing? && sent < outputLen
      modifies this`sent, this`writes
      ensures Valid() && old(sent) <= sent <= old(sent) + OUTPUT_SIZE
      ensures |Wire(writes)| == |old(Wire(writes))| + (sent - old(sent)) && (sent > old(sent) ==> e.Moved?)
      ensures Wire(writes) == old(Wire(writes)) + output[old(sent)..sent]
      ensures r == Some(Broken) ==> e.Failed? || e == Moved(0)
      ensures e.Wait? ==> r.Some?
      ensures r == Some(Waits) ==> e.Wait? || e.Interrupted?
      ensures r.Some? ==> r.value.Broken? || r.value.Waits?
      ensures r == None && e.Moved? ==> Work() < old(Work())
      ensures r != Some(Broken) && !e.Moved? ==> Work() == old(Work())
    {
      hide AnswerBytes, Decide, Repeats;
      var left := outputLen - sent;
      ghost var data := output[sent..outputLen];
      match e
      case Failed => return Some(Broken);
      case Wait =>
        Record(Write(sent, data, None));
        return Some(Waits);
      case Interrupted =>
        Record(Write(sent, data, None));
        return if tls then Some(Waits) else None;
      case Moved(n) =>
        var count := Min(n, left);
        if count == 0 { return Some(Broken); }
        Advance(count);
        return None;
    }

    /** Records a write that was not taken. */
    ghost method Record(w: Write)
      requires Valid() && state.Writing? && sent < outputLen && w == Write(sent, output[sent..outputLen], None)
      modifies this`writes
      ensures Valid() && Wire(writes) == old(Wire(writes))
    {
      hide AnswerBytes, Decide, Repeats;
      WireAppend(writes, w);
      RepeatsAppend(writes, w);
      writes := writes + [w];
    }

    /** Records a write of which some bytes were taken, and counts them as sent. */
    method Advance(count: nat)
      requires Valid() && state.Writing? && 0 < count <= outputLen - sent
      modifies this`sent, this`writes
      ensures Valid() && sent == old(sent) + count
      ensures Wire(writes) == old(Wire(writes)) + output[old(sent)..sent]
    {
      hide AnswerBytes, Decide, Repeats, Wire, Gathering;
      ghost var data, rest := output[sent..outputLen], file[fileOffset..fileOffset + fileRemaining];
      ghost var taken, left := output[sent..sent + count], output[sent + count..outputLen];
      ghost var w := Write(sent, data, Some(count));
      WireAppend(writes, w);
      RepeatsAppend(writes, w);
      assert data == taken + left && data[..count] == taken;
      Regroup(Wire(writes), taken, left, rest);
      writes := writes + [w];
      sent := sent + count;
    }

    /** Copies the next n bytes of the file into the buffer. */
    method Load(n: nat)
      requires Valid() && state.Writing? && sent == outputLen && 0 < n <= fileRemaining && n <= OUTPUT_SIZE
      modifies this`sent, this`outputLen, this`fileOffset, this`fileRemaining, output
      ensures Valid() && fileRemaining == old(fileRemaining) - n && Work() < old(Work())
    {
      hide AnswerBytes, Decide, Repeats, Wire;
      ghost var chunk, rest := file[fileOffset..fileOffset + n], file[fileOffset + n..fileOffset + fileRemaining];
      assert Pending() == chunk + rest by { assert output[sent..outputLen] == ""; }
      forall i | 0 <= i < n { output[i] := file[fileOffset + i]; }
      assert output[0..n] == chunk;
      fileOffset, fileRemaining := fileOffset + n, fileRemaining - n;
      outputLen, sent := n, 0;
      assert Pending() == chunk + rest;
    }

    /** Refills the output buffer from the file, once it was fully sent. */
    method ReadFileChunk(io: seq<Io>, at: nat) returns (ok: bool, next: nat)
      requires Valid() && state.Writing? && sent == outputLen && fileRemaining > 0 && at <= |io|
      modifies this`sent, this`outputLen, this`fileOffset, this`fileRemaining, output
      ensures Valid() && at <= next <= |io|
      ensures ok ==> fileRemaining < old(fileRemaining) && Work() < old(Work())
      ensures !ok ==> Faulty(io) && next > at
    {
      hide AnswerBytes, Decide, Repeats, Wire;
      var count := Min(OUTPUT_SIZE, fileRemaining);
      next := at;
      while Result(io, next).Interrupted?
        invariant at <= next <= |io|
        decreases |io| - next
      {
        next := Next(io, next);
      }
      var e := Result(io, next);
      next := Next(io, next);
      var n := match e case Failed => 0 case Moved(k) => Min(k, count) case Wait => count case Interrupted => count;
      if n == 0 { return false, next; }
      Load(n);
      return true, next;
    }

    /** What reached the wire is a part of the answer that the client's stream calls for. */
    ghost predicate WireIsRight()
      reads this
    {
      && Repeats(writes)
      && (writes != [] ==>
        Sized(files) && !Decide(stream).Waiting? && Wire(writes) <= AnswerBytes(Decide(stream), tls, files))
    }

    lemma ValidIsRight()
      requires Valid()
      ensures WireIsRight()
      ensures state.Closing? ==> !Decide(stream).Waiting? && Wire(writes) == AnswerBytes(Decide(stream), tls, files)
    {
      if state.Writing? || state.Closing? {
        DecisionIsFinal(stream[..used], stream);
      }
      hide Decide, AnswerBytes, Wire, Repeats;
    }

    /** The connection gives up on a header that is too long. */
    method RefuseHeader() returns (ok: bool)
      requires Valid() && state.Reading? && used == INPUT_SIZE - 1
      modifies this, output
      ensures writes == old(writes) && WireIsRight() && used == old(used)
      ensures ok ==> Valid() && state.Writing? && Work() < old(Work())
      ensures !ok ==> Overflowing()
    {
      hide Empty, StrStr;
      ok := PutHeader(Empty("431", "Request Header Fields Too Large", ""));
      assert Decide(stream[..used]) == TooLarge by { assert stream[..used][..used] == stream[..used]; }
      if ok {
        state := Writing;
        assert Pending() == output[..outputLen];
        AnswerWithinBudget();
      }
    }

    /** Moves on after the handshake, or when everything is written. */
    method Enter(next: State)
      requires Valid() && (next.Reading? || next.Closing?)
      requires if next.Reading? then state.Handshake? else state.Writing? && sent == outputLen && fileRemaining == 0
      modifies this`state
      ensures Valid() && state == next
      ensures if next.Reading? then Work() < old(Work()) else Work() == old(Work())
    {
      hide Decide, AnswerBytes, Repeats, Wire, StrStr;
      state := next;
    }

    lemma NeverOverflows()
      ensures !Overflowing()
    {
      if used <= |stream| && Sized(files) && !Decide(stream[..used]).Waiting? {
        AnswerAlwaysFits(stream[..used], tls, files);
      }
    }

    /** One round of Drive: what the state calls for, with count bytes sent; stop tells why Drive should return. */
    method Round(io: seq<Io>, at: nat) returns (stop: Option<Outcome>, next: nat, count: nat)
      requires Valid() && at <= |io|
      modifies this, input, output
      ensures at <= next <= |io| && count <= OUTPUT_SIZE && (count > 0 ==> next > at) && WireIsRight()
      ensures old(Wire(writes)) <= Wire(writes) && |Wire(writes)| == |old(Wire(writes))| + count
      ensures stop != Some(Broken) ==> Valid() && Work() <= old(Work())
      ensures stop == Some(Closed) ==> state.Closing?
      ensures stop == Some(Waits) ==> next == |io| || Blocking(io)
      ensures stop == Some(Broken) ==> Faulty(io) || Decide(stream).Waiting? || Overflowing()
      ensures stop != Some(Yields)
      ensures at == 0 && Helpful(io) && ((stop == None && next > 0) || stop == Some(Waits)) ==> Work() < old(Work())
      ensures stop == None && next == at ==>
        Rank(state) < old(Rank(state)) || (state == old(state) && fileRemaining < old(fileRemaining))
    {
      hide Decide, AnswerBytes, Repeats, StrStr, Wire, Work, Budget, Overflowing, Answering, Gathering, WireIsRight;
      ValidIsRight();
      count := 0;
      match state
      case Handshake =>
        var e := Result(io, at);
        next := Next(io, at);
        if e.Failed? { return Some(Broken), next, 0; }
        if !e.Moved? { return Some(Waits), next, 0; }
        Enter(Reading);
        ValidIsRight();
        stop := None;
      case Reading =>
        if used == INPUT_SIZE - 1 {
          var ok := RefuseHeader();
          stop, next := if ok then None else Some(Broken), at;
        } else {
          stop := Receive(Result(io, at));
          next := Next(io, at);
        }
      case Writing =>
        stop, next, count := WriteOn(io, at);
        ValidIsRight();
      case Closing =>
        next := at;
        if tls {
          var e := Result(io, at);
          next := Next(io, at);
          if e.Wait? || e.Interrupted? { return Some(Waits), next, 0; }
        }
        stop := Some(Closed);
    }

    /** Sends what is in the buffer, refills it, or finds that everything is sent. */
    method WriteOn(io: seq<Io>, at: nat) returns (stop: Option<Outcome>, next: nat, count: nat)
      requires Valid() && state.Writing? && at <= |io|
      modifies this`state, this`sent, this`writes, this`outputLen, this`fileOffset, this`fileRemaining, output
      ensures Valid() && at <= next <= |io| && count <= OUTPUT_SIZE && (count > 0 ==> next > at)
      ensures stop != Some(Broken) ==> Work() <= old(Work())
      ensures old(Wire(writes)) <= Wire(writes) && |Wire(writes)| == |old(Wire(writes))| + count
      ensures stop == Some(Waits) ==> next == |io| || Blocking(io)
      ensures stop == Some(Broken) ==> Faulty(io)
      ensures stop.Some? ==> stop.value.Waits? || stop.value.Broken?
      ensures at == 0 && Helpful(io) && ((stop == None && next > 0) || stop == Some(Waits)) ==> Work() < old(Work())
      ensures stop == None && next == at ==>
        state.Closing? || (state.Writing? && fileRemaining < old(fileRemaining))
    {
      hide Decide, AnswerBytes, Repeats, StrStr, Wire, Work, Budget, Answering, Gathering;
      stop, next, count := None, at, 0;
      if sent < outputLen {
        var was := sent;
        stop := Send(Result(io, at));
        next, count := Next(io, at), sent - was;
      } else if fileRemaining == 0 {
        Enter(Closing);
      } else {
        var ok;
        ok, next := ReadFileChunk(io, at);
        stop := if ok then None else Some(Broken);
      }
    }

    /** Runs the connection until it has to wait, should yield, or ends; tells how many results it used. */
    method Drive(io: seq<Io>) returns (r: Outcome, spent: nat)
      requires Valid()
      modifies this, input, output
      ensures r != Broken ==> Valid()
      ensures WireIsRight() && old(Wire(writes)) <= Wire(writes)
      ensures |Wire(writes)| < |old(Wire(writes))| + YIELD_AFTER + OUTPUT_SIZE
      ensures r == Closed ==> state.Closing?
      ensures r == Yields ==> |Wire(writes)| >= |old(Wire(writes))| + YIELD_AFTER
      ensures r == Waits ==> spent == |io| || Blocking(io)
      ensures r == Broken ==> Faulty(io) || Decide(stream).Waiting? || Overflowing()
      ensures (r == Waits || r == Yields) && Helpful(io) ==> Work() < old(Work())
      ensures r == Waits || r == Yields ==> Work() <= old(Work())
    {
      hide Decide, StrStr, Wire, Work, Overflowing, Answering, Gathering, WireIsRight, Faulty, Blocking, Helpful;
      ghost var before, work := Wire(writes), Work();
      var written := 0;
      spent := 0;
      while true
        invariant Valid() && spent <= |io| && Work() <= work && (spent > 0 && Helpful(io) ==> Work() < work)
        invariant before <= Wire(writes) && |Wire(writes)| == |before| + written && written < YIELD_AFTER
        invariant written > 0 ==> spent > 0
        decreases |io| - spent, Rank(state), fileRemaining
      {
        var stop, next, count := Round(io, spent);
        spent, written := next, written + count;
        if stop.Some? { return stop.value, spent; }
        if written >= YIELD_AFTER { return Yields, spent; }
      }
    }
  }

  /** The event loop as one connection sees it: Drive, again and again, until the connection ends. */
  method Serve(c: Connection, schedules: seq<seq<Io>>) returns (r: Outcome, pauses: nat)
    requires c.Valid()
    modifies c, c.input, c.output
    ensures c.WireIsRight() && old(Wire(c.writes)) <= Wire(c.writes)
    ensures r == Closed ==>
      !Decide(c.stream).Waiting? && Wire(c.writes) == AnswerBytes(Decide(c.stream), c.tls, c.files)
    ensures r == Broken ==> Decide(c.stream).Waiting? || exists i :: 0 <= i < |schedules| && Faulty(schedules[i])
    ensures |old(Wire(c.writes))| + pauses * YIELD_AFTER <= |Wire(c.writes)|
    ensures !Decide(c.stream).Waiting? && |schedules| > old(c.Work())
      && (forall i | 0 <= i < |schedules| :: Helpful(schedules[i]) && !Faulty(schedules[i]))
      ==> r == Closed
  {
    hide Decide, AnswerBytes, Repeats, Wire, Faulty, Helpful;
    r, pauses := Waits, 0;
    c.ValidIsRight();
    ghost var before, work := Wire(c.writes), c.Work();
    for i := 0 to |schedules|
      invariant c.Valid() && before <= Wire(c.writes) && c.WireIsRight() && r != Closed && r != Broken
      invariant |before| + pauses * YIELD_AFTER <= |Wire(c.writes)|
      invariant (forall j | 0 <= j < i :: Helpful(schedules[j])) ==> c.Work() + i <= work
    {
      ghost var prior := Wire(c.writes);
      var spent;
      r, spent := c.Drive(schedules[i]);
      assert before <= prior <= Wire(c.writes);
      c.NeverOverflows();
      if r == Broken { return; }
      c.ValidIsRight();
      if r == Closed { return; }
      if r == Yields { pauses := pauses + 1; }
    }
  }

  /** Connections with the same client, files and kind that finish send the same bytes, whatever the schedules. */
  lemma SchedulesDoNotMatter(a: Connection, b: Connection)
    requires a.Valid() && b.Valid() && a.state.Closing? && b.state.Closing?
    requires a.stream == b.stream && a.tls == b.tls && a.files == b.files
    ensures Wire(a.writes) == Wire(b.writes)
  {
    a.ValidIsRight();
    b.ValidIsRight();
  }
}
