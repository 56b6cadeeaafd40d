// The streaming cipher of rmt/cipher.c: one context kept across calls, a direction
// latched by the first call, an output buffer that grows, and the decryption program.

module StreamCipher {
  import opened LittleEndian
  import opened Cbc

  /** What the key file gives: the keyed block cipher and the initialisation vector. */
  datatype Schedule = Schedule(cipher: BlockCipher, iv: Block)

  /** The context: not yet initialised, or latched to a direction with a chaining value. */
  datatype Stream =
    | Idle
    | Running(encrypting: bool, schedule: Schedule, chain: Block)

  datatype State = State(stream: Stream, outlen: nat)

  const FRESH := State(Idle, 0)

  /** One call: what reading the key file would give now, the data and the direction, and
      whether the library's update would succeed. */
  datatype Call = Call(key: Option<Schedule>, data: seq<bv8>, encrypt: bool, updates: bool)

  // ---------------------------------------------------------------------
  // One call, as a step of the state.
  // ---------------------------------------------------------------------

  /** The first call that can read the key latches the direction, even if it is then refused. */
  function Started(s: Stream, c: Call): Stream {
    if s.Idle? && c.key.Some? then Running(c.encrypt, c.key.value, c.key.value.iv) else s
  }

  /** Not refused for the key, the direction or the size: the call gets to the library. */
  predicate Admitted(s: Stream, c: Call) {
    var t := Started(s, c);
    t.Running? && t.encrypting == c.encrypt && Whole(c.data)
  }

  predicate Accepted(s: Stream, c: Call) {
    Admitted(s, c) && c.updates
  }

  /** One-shot CBC in a direction. */
  function Transform(encrypting: bool, schedule: Schedule, chain: Block, data: seq<bv8>): (r: seq<bv8>)
    requires Whole(data)
    ensures |r| == |data|
  {
    if encrypting then Encrypt(schedule.cipher, chain, data) else Decrypt(schedule.cipher, chain, data)
  }

  /** Which of input and output is the ciphertext, which is what chains. */
  function Ciphertext(encrypting: bool, schedule: Schedule, chain: Block, data: seq<bv8>): (c: seq<bv8>)
    requires Whole(data)
    ensures Whole(c)
  {
    if encrypting then Encrypt(schedule.cipher, chain, data) else data
  }

  function Grown(outlen: nat, buflen: nat): nat {
    if outlen < buflen + BLOCKSIZE then (buflen + BLOCKSIZE) * 2 else outlen
  }

  function Advanced(t: Stream, data: seq<bv8>): Stream
    requires t.Running? && Whole(data)
  {
    t.(chain := LastBlock(t.chain, Ciphertext(t.encrypting, t.schedule, t.chain, data)))
  }

  function Step(s: State, c: Call): (State, Option<seq<bv8>>) {
    var t := Started(s.stream, c);
    if !Admitted(s.stream, c) then (State(t, s.outlen), None)
    else if !c.updates then (State(t, Grown(s.outlen, |c.data|)), None)
    else (State(Advanced(t, c.data), Grown(s.outlen, |c.data|)),
          Some(Transform(t.encrypting, t.schedule, t.chain, c.data)))
  }

  // ---------------------------------------------------------------------
  // The code.
  // ---------------------------------------------------------------------

  class Cipher {
    var stream: Stream
    var out: array<bv8>
    var outlen: nat

    ghost predicate Valid()
      reads this
    {
      out.Length == outlen
    }

    ghost function Abs(): State
      reads this
    {
      State(stream, outlen)
    }

    constructor ()
      ensures Valid() && Abs() == FRESH && fresh(out)
    {
      stream, outlen := Idle, 0;
      out := new bv8[0];
    }

    /** The data must be short enough for the buffer size to be an int. */
    method Apply(buf: array<bv8>, buflen: nat, doEncrypt: bool, key: Option<Schedule>, updates: bool)
      returns (r: array?<bv8>)
      requires Valid() && buf != out
      requires buflen <= buf.Length && 2 * (buflen + BLOCKSIZE) < 0x8000_0000
      modifies this, out
      ensures Valid() && (out == old(out) || fresh(out))
      ensures var (s, o) := Step(old(Abs()), Call(key, old(buf[..buflen]), doEncrypt, updates));
              && Abs() == s
              && (o.None? ==> r == null)
              && (o.Some? ==> r == out && buflen + BLOCKSIZE <= outlen && out[..buflen] == o.value)
      ensures var reached := buflen % 8 == 0
                && if old(stream).Running? then old(stream).encrypting == doEncrypt else key.Some?;
              && (r != null <==> reached && updates)
              && (r == null && old(stream).Running? ==> stream == old(stream))
              && outlen == (if reached && old(outlen) < buflen + 8 then 2 * buflen + 16 else old(outlen))
    {
      hide Transform, Ciphertext, LastBlock;
      if stream.Idle? {
        if key.None? {
          return null;
        }
        stream := Running(doEncrypt, key.value, key.value.iv);
      }
      if stream.encrypting != doEncrypt {
        return null;
      }
      if buflen % BLOCKSIZE != 0 {
        return null;
      }
      if outlen < buflen + BLOCKSIZE {
        outlen := (buflen + BLOCKSIZE) * 2;
        out := new bv8[outlen];
      }
      var ok := CipherUpdate(buf, buflen, updates);
      if !ok {
        return null;
      }
      r := out;
    }

    /** The library's update call, without padding: CBC on all the data, or an error that
        leaves the context as it was. */
    method CipherUpdate(buf: array<bv8>, n: nat, updates: bool) returns (ok: bool)
      requires Valid() && buf != out && stream.Running?
      requires n <= buf.Length && n <= outlen && n % BLOCKSIZE == 0
      modifies this`stream, out
      ensures ok == updates
      ensures stream == if ok then Advanced(old(stream), buf[..n]) else old(stream)
      ensures ok ==>
              out[..n] == Transform(old(stream.encrypting), old(stream.schedule), old(stream.chain), buf[..n])
    {
      if !updates {
        return false;
      }
      var data := buf[..n];
      var result := Transform(stream.encrypting, stream.schedule, stream.chain, data);
      forall i | 0 <= i < n {
        out[i] := result[i];
      }
      assert out[..n] == result && buf[..n] == data;
      stream := Advanced(stream, data);
      ok := true;
    }
  }

  const CHUNK := 8 * 1024

  /** What goes wrong around the decryption program: the library's update from some call
      on, the end of the input, or the last write. */
  datatype Faults = Faults(update: Option<nat>, read: bool, flush: bool)

  const NO_FAULTS := Faults(None, false, false)

  /** How many of the first bytes the library can take, in chunks. */
  function Reach(faults: Faults, n: nat): (m: nat)
    ensures m <= n
  {
    if faults.update.None? || n <= faults.update.value * CHUNK then n else faults.update.value * CHUNK
  }

  /** The same for the whole chunks among the first bytes. */
  function ChunkReach(faults: Faults, n: nat): (m: nat)
    ensures m <= n && m % BLOCKSIZE == 0
  {
    ReachIsWhole(faults, n);
    Reach(faults, n / CHUNK * CHUNK)
  }

  /** An input of whole blocks is decrypted entirely; of any other, the whole chunks; and
      nothing from the first fault of the library on. */
  function Decrypted(key: Option<Schedule>, stdin: seq<bv8>, faults: Faults): (seq<bv8>, int) {
    var status := if faults.read || faults.flush then 1 else 0;
    if stdin == [] then ([], status)
    else if key.None? then ([], 1)
    else if Whole(stdin) && Reach(faults, |stdin|) == |stdin| then
      (Decrypt(key.value.cipher, key.value.iv, stdin), status)
    else
      (Decrypt(key.value.cipher, key.value.iv, stdin[..ChunkReach(faults, |stdin|)]), 1)
  }

  /** Where the loop stands when `done` bytes have been decrypted. */
  ghost predicate Progress(key: Option<Schedule>, stdin: seq<bv8>, faults: Faults, done: nat, stream: Stream,
                           stdout: seq<bv8>) {
    && done <= |stdin| && (done % CHUNK == 0 || done == |stdin|) && Reach(faults, done) == done
    && if done == 0 then stream == Idle && stdout == []
       else
         && key.Some? && Whole(stdin[..done])
         && stream == Running(false, key.value, LastBlock(key.value.iv, stdin[..done]))
         && stdout == Decrypt(key.value.cipher, key.value.iv, stdin[..done])
  }

  lemma ChunkSizes(done: nat, n: nat, len: nat)
    requires done % CHUNK == 0 && done < len && n == if len - done < CHUNK then len - done else CHUNK
    ensures (done + n) % CHUNK == 0 || done + n == len
    ensures (done + n) % BLOCKSIZE == n % BLOCKSIZE
    ensures n % BLOCKSIZE != 0 ==> len % BLOCKSIZE != 0 && done == len / CHUNK * CHUNK
  {
  }

  /** Whether the library takes the chunk that begins after `done` bytes. */
  predicate Updates(faults: Faults, done: nat) {
    faults.update.None? || done / CHUNK < faults.update.value
  }

  lemma ReachNext(faults: Faults, done: nat, n: nat, len: nat)
    requires done % CHUNK == 0 && done < len && n == if len - done < CHUNK then len - done else CHUNK
    requires Reach(faults, done) == done
    ensures Updates(faults, done) ==> Reach(faults, done + n) == done + n
    ensures Updates(faults, done) && n < CHUNK ==> Reach(faults, done) == Reach(faults, len / CHUNK * CHUNK)
    ensures !Updates(faults, done) ==>
            Reach(faults, len) == done < len && Reach(faults, len / CHUNK * CHUNK) == done
  {
  }

  lemma {:induction false} ProgressStep(key: Option<Schedule>, stdin: seq<bv8>, faults: Faults, done: nat, n: nat,
                                        s: State, stdout: seq<bv8>)
    requires Progress(key, stdin, faults, done, s.stream, stdout)
    requires done < |stdin| && n == if |stdin| - done < CHUNK then |stdin| - done else CHUNK
    ensures var (t, o) := Step(s, Call(key, stdin[done..done + n], false, Updates(faults, done)));
            if o.Some? then Progress(key, stdin, faults, done + n, t.stream, stdout + o.value)
            else (stdout, 1) == Decrypted(key, stdin, faults)
  {
    hide Encrypt, Decrypt, LastBlock, Reach, Updates;
    ChunkSizes(done, n, |stdin|);
    ReachNext(faults, done, n, |stdin|);
    var before, chunk, after := stdin[..done], stdin[done..done + n], stdin[..done + n];
    assert after == before + chunk && |before| == done && |chunk| == n && |after| == done + n;
    if key.Some? && Whole(chunk) && Updates(faults, done) {
      var bc, iv := key.value.cipher, key.value.iv;
      if done == 0 {
        assert after == chunk;
      } else {
        DecryptConcat(bc, iv, before, chunk);
        LastBlockConcat(iv, before, chunk);
      }
    }
  }

  /** Whatever goes wrong, what has been written is a beginning of what would have been
      written otherwise, and status 0 means that nothing was cut. */
  lemma FaultsOnlyCut(key: Option<Schedule>, stdin: seq<bv8>, faults: Faults)
    ensures var (cut, status), (full, _) := Decrypted(key, stdin, faults), Decrypted(key, stdin, NO_FAULTS);
            && cut <= full
            && (status == 0 ==> cut == full && Whole(stdin) && !faults.read && !faults.flush)
  {
    hide Encrypt, Decrypt, Reach;
    ReachIsWhole(faults, |stdin|);
    if key.Some? {
      var n := |stdin| / CHUNK * CHUNK;
      DecryptPrefix(key.value.cipher, key.value.iv, stdin, Reach(faults, n), if Whole(stdin) then |stdin| else n);
      assert stdin[..|stdin|] == stdin;
    }
  }

  /** What the program writes and returns, stated without the loop: how much is decrypted,
      each block of it, and when all went well. */
  lemma {:induction false} DecryptedExactly(key: Option<Schedule>, stdin: seq<bv8>, faults: Faults)
    ensures var (stdout, status) := Decrypted(key, stdin, faults);
            var limit := if faults.update.None? then |stdin| else 8192 * faults.update.value;
            var whole := if |stdin| % 8 == 0 then |stdin| else |stdin| / 8192 * 8192;
            && |stdout| == (if key.None? then 0 else if limit < whole then limit else whole)
            && (status == 0 <==> (stdin == [] || (key.Some? && |stdin| % 8 == 0 && |stdin| <= limit))
                                 && !faults.read && !faults.flush)
            && (status == 0 || status == 1)
            && forall k :: 0 <= k && 8 * k + 8 <= |stdout| && |stdout| <= |stdin| && key.Some? ==>
                 IsXor(BlockAt(stdout, k), key.value.cipher.inverse(BlockAt(stdin, k)),
                       if k == 0 then key.value.iv else BlockAt(stdin, k - 1))
  {
    hide Encrypt, Decrypt, IsXor;
    var stdout := Decrypted(key, stdin, faults).0;
    forall k | 0 <= k && 8 * k + 8 <= |stdout| && |stdout| <= |stdin| && key.Some?
      ensures IsXor(BlockAt(stdout, k), key.value.cipher.inverse(BlockAt(stdin, k)),
                    if k == 0 then key.value.iv else BlockAt(stdin, k - 1))
    {
      DecryptedBlock(key, stdin, faults, k);
    }
    ReachIsWhole(faults, |stdin|);
  }

  lemma {:induction false} DecryptedBlock(key: Option<Schedule>, stdin: seq<bv8>, faults: Faults, k: nat)
    requires key.Some? && 8 * k + 8 <= |Decrypted(key, stdin, faults).0| <= |stdin|
    ensures IsXor(BlockAt(Decrypted(key, stdin, faults).0, k), key.value.cipher.inverse(BlockAt(stdin, k)),
                  if k == 0 then key.value.iv else BlockAt(stdin, k - 1))
  {
    hide Encrypt, Decrypt, IsXor, Reach;
    ReachIsWhole(faults, |stdin|);
    var taken := stdin[..|Decrypted(key, stdin, faults).0|];
    DecryptBlock(key.value.cipher, key.value.iv, taken, k);
    assert stdin[..|stdin|] == stdin;
    assert BlockAt(taken, k) == BlockAt(stdin, k);
    if k > 0 {
      assert BlockAt(taken, k - 1) == BlockAt(stdin, k - 1);
    }
  }

  lemma ReachIsWhole(faults: Faults, n: nat)
    ensures Reach(faults, n / CHUNK * CHUNK) % BLOCKSIZE == 0 && n / CHUNK * CHUNK <= n
    ensures n / CHUNK * CHUNK % BLOCKSIZE == 0
    ensures Reach(NO_FAULTS, n) == n && Reach(NO_FAULTS, n / CHUNK * CHUNK) == n / CHUNK * CHUNK
  {
  }

  lemma DecryptPrefix(cipher: BlockCipher, iv: Block, data: seq<bv8>, m: nat, n: nat)
    requires m <= n <= |data| && m % BLOCKSIZE == 0 && n % BLOCKSIZE == 0
    ensures Decrypt(cipher, iv, data[..m]) <= Decrypt(cipher, iv, data[..n])
  {
    assert data[..m] + data[m..n] == data[..n];
    DecryptConcat(cipher, iv, data[..m], data[m..n]);
  }

  /** Decrypts a whole input in a new process: what is written, and the exit status. */
  method DecryptProgram(key: Option<Schedule>, stdin: seq<bv8>, faults: Faults) returns (stdout: seq<bv8>, status: int)
    ensures (stdout, status) == Decrypted(key, stdin, faults)
  {
    hide Encrypt, Decrypt, LastBlock, Reach, Updates;
    var c := new Cipher();
    var buf := new bv8[CHUNK];
    stdout := [];
    var done := 0;
    while true
      invariant c.Valid() && fresh(c) && fresh(c.out) && buf != c.out
      invariant Progress(key, stdin, faults, done, c.stream, stdout)
      decreases |stdin| - done
    {
      var n := if |stdin| - done < CHUNK then |stdin| - done else CHUNK;
      if n == 0 {
        break;
      }
      forall i | 0 <= i < n {
        buf[i] := stdin[done + i];
      }
      assert buf[..n] == stdin[done..done + n];
      ProgressStep(key, stdin, faults, done, n, c.Abs(), stdout);
      var cp := c.Apply(buf, n, false, key, Updates(faults, done));
      if cp == null {
        return stdout, 1;
      }
      stdout := stdout + cp[..n];
      done := done + n;
    }
    assert stdin[..done] == stdin;
    if faults.read {
      return stdout, 1;
    }
    if faults.flush {
      return stdout, 1;
    }
    status := 0;
  }

  // ---------------------------------------------------------------------
  // Runs of calls, any of which may be refused.
  // ---------------------------------------------------------------------

  /** What a run of calls amounts to: the state, the data of the accepted calls and what
      they returned, each joined, how often the buffer was reallocated, and the length of
      the longest data that got to the library. */
  datatype History = History(state: State, input: seq<bv8>, output: seq<bv8>, reallocations: nat, largest: nat)

  const NO_CALLS := History(FRESH, [], [], 0, 0)

  function Extend(h: History, c: Call): History {
    var (s, o) := Step(h.state, c);
    if !Admitted(h.state.stream, c) then h.(state := s)
    else History(s, if o.None? then h.input else h.input + c.data, if o.None? then h.output else h.output + o.value,
                 h.reallocations + if s.outlen != h.state.outlen then 1 else 0,
                 if |c.data| > h.largest then |c.data| else h.largest)
  }

  function Run(h: History, calls: seq<Call>): History {
    if calls == [] then h else Extend(Run(h, calls[..|calls| - 1]), calls[|calls| - 1])
  }

  /** The joined output is one-shot CBC of the joined input, and the chaining value is
      where one-shot CBC would leave it. */
  ghost predicate IsOneShot(h: History) {
    var s := h.state.stream;
    && Whole(h.input)
    && if s.Idle? then h.input == [] && h.output == []
       else
         && h.output == Transform(s.encrypting, s.schedule, s.schedule.iv, h.input)
         && s.chain == LastBlock(s.schedule.iv, Ciphertext(s.encrypting, s.schedule, s.schedule.iv, h.input))
  }

  lemma ExtendIsOneShot(h: History, c: Call)
    requires IsOneShot(h)
    ensures IsOneShot(Extend(h, c))
  {
    var s := Started(h.state.stream, c);
    if Accepted(h.state.stream, c) {
      TransformConcat(s, h.input, c.data);
    }
  }

  lemma TransformConcat(s: Stream, p: seq<bv8>, q: seq<bv8>)
    requires s.Running? && Whole(p) && Whole(q)
    requires s.chain == LastBlock(s.schedule.iv, Ciphertext(s.encrypting, s.schedule, s.schedule.iv, p))
    ensures Whole(p + q)
    ensures Transform(s.encrypting, s.schedule, s.schedule.iv, p + q)
         == Transform(s.encrypting, s.schedule, s.schedule.iv, p) + Transform(s.encrypting, s.schedule, s.chain, q)
    ensures LastBlock(s.schedule.iv, Ciphertext(s.encrypting, s.schedule, s.schedule.iv, p + q))
         == LastBlock(s.chain, Ciphertext(s.encrypting, s.schedule, s.chain, q))
  {
    hide Encrypt, Decrypt, LastBlock;
    var bc, iv := s.schedule.cipher, s.schedule.iv;
    if s.encrypting {
      EncryptConcat(bc, iv, p, q);
      LastBlockConcat(iv, Encrypt(bc, iv, p), Encrypt(bc, s.chain, q));
    } else {
      DecryptConcat(bc, iv, p, q);
      LastBlockConcat(iv, p, q);
    }
  }

  /** Re-chunking: however data is split into calls, and whichever calls are refused or fail
      in between, a stream is one-shot CBC. */
  lemma {:induction false} StreamIsOneShot(calls: seq<Call>)
    ensures IsOneShot(Run(NO_CALLS, calls))
  {
    if calls != [] {
      StreamIsOneShot(calls[..|calls| - 1]);
      ExtendIsOneShot(Run(NO_CALLS, calls[..|calls| - 1]), calls[|calls| - 1]);
    }
  }

  /** The first call that can read the key decides key and direction for good; before it
      nothing is accepted. */
  lemma {:induction false} DirectionIsLatched(calls: seq<Call>, i: nat)
    requires i <= |calls| && forall j :: 0 <= j < i ==> calls[j].key.None?
    requires i < |calls| ==> calls[i].key.Some?
    ensures var h := Run(NO_CALLS, calls); var s := h.state.stream;
            if i == |calls| then h == NO_CALLS
            else s.Running? && s.encrypting == calls[i].encrypt && s.schedule == calls[i].key.value
    decreases |calls|
  {
    if calls != [] {
      var n := |calls| - 1;
      DirectionIsLatched(calls[..n], if i <= n then i else n);
    }
  }

  /** Call i is the first that can read the key. */
  ghost predicate FirstWithKey(calls: seq<Call>, i: nat) {
    && i <= |calls| && (i < |calls| ==> calls[i].key.Some?)
    && forall j :: 0 <= j < i ==> calls[j].key.None?
  }

  /** The calls that should be transformed: from the first with a key on, those in its
      direction with whole blocks, if the library does not fail. */
  predicate ToTransform(calls: seq<Call>, i: nat, j: nat) {
    i <= j < |calls| && calls[j].encrypt == calls[i].encrypt && |calls[j].data| % 8 == 0 && calls[j].updates
  }

  /** Their data, joined. */
  function DataOf(calls: seq<Call>, i: nat, n: nat): seq<bv8>
    requires n <= |calls|
  {
    if n == 0 then [] else DataOf(calls, i, n - 1) + if ToTransform(calls, i, n - 1) then calls[n - 1].data else []
  }

  /** What call j of a run returns. */
  function Returned(calls: seq<Call>, j: nat): Option<seq<bv8>>
    requires j < |calls|
  {
    Step(Run(NO_CALLS, calls[..j]).state, calls[j]).1
  }

  lemma {:induction false} LatchedAfter(calls: seq<Call>, i: nat, n: nat)
    requires FirstWithKey(calls, i) && n <= |calls|
    ensures var s := Run(NO_CALLS, calls[..n]).state.stream;
            if n <= i then Run(NO_CALLS, calls[..n]) == NO_CALLS
            else s.Running? && s.encrypting == calls[i].encrypt && s.schedule == calls[i].key.value
  {
    DirectionIsLatched(calls[..n], if n < i then n else i);
  }

  /** Which calls are refused, over any run: a call returns data, as much as it was given,
      just when it is to be transformed. Any other adds nothing and, but for the latching,
      leaves the stream as it was. */
  lemma {:induction false} OnlyTheseAreTransformed(calls: seq<Call>, i: nat, j: nat)
    requires FirstWithKey(calls, i) && j < |calls|
    ensures Returned(calls, j).Some? <==> ToTransform(calls, i, j)
    ensures Returned(calls, j).Some? ==> |Returned(calls, j).value| == |calls[j].data|
    ensures Returned(calls, j).None? && i != j ==>
              Run(NO_CALLS, calls[..j + 1]).state.stream == Run(NO_CALLS, calls[..j]).state.stream
    ensures var before, after := Run(NO_CALLS, calls[..j]), Run(NO_CALLS, calls[..j + 1]);
            var o := Returned(calls, j);
            && after.input == before.input + (if o.Some? then calls[j].data else [])
            && after.output == before.output + if o.Some? then o.value else []
  {
    hide Transform, Ciphertext, LastBlock;
    LatchedAfter(calls, i, j);
    assert calls[..j + 1][..j] == calls[..j];
    var before := Run(NO_CALLS, calls[..j]);
    assert before.input + [] == before.input && before.output + [] == before.output;
  }

  /** So what a run transforms is exactly the data of those calls. */
  lemma {:induction false} InputIsTheirData(calls: seq<Call>, i: nat, n: nat)
    requires FirstWithKey(calls, i) && n <= |calls|
    ensures Run(NO_CALLS, calls[..n]).input == DataOf(calls, i, n)
  {
    if n > 0 {
      InputIsTheirData(calls, i, n - 1);
      OnlyTheseAreTransformed(calls, i, n - 1);
    }
  }

  /** Whatever was encrypted by any run of calls, the decryption program given the same
      key turns the joined output back into the joined input, and succeeds. */
  lemma StreamRoundTrip(calls: seq<Call>)
    requires var s := Run(NO_CALLS, calls).state.stream;
             s.Running? && s.encrypting && Invertible(s.schedule.cipher)
    ensures var h := Run(NO_CALLS, calls);
            && |h.output| == |h.input|
            && Decrypted(Some(h.state.stream.schedule), h.output, NO_FAULTS) == (h.input, 0)
  {
    var h := Run(NO_CALLS, calls);
    StreamIsOneShot(calls);
    DecryptEncrypt(h.state.stream.schedule.cipher, h.state.stream.schedule.iv, h.input);
  }

  // ---------------------------------------------------------------------
  // Refused calls and the buffer.
  // ---------------------------------------------------------------------

  /** The calls of a run that are not refused. */
  function Kept(h: History, calls: seq<Call>): seq<Call> {
    if calls == [] then []
    else
      var front, c := calls[..|calls| - 1], calls[|calls| - 1];
      Kept(h, front) + if Admitted(Run(h, front).state.stream, c) then [c] else []
  }

  lemma RunOneMore(h: History, calls: seq<Call>, c: Call)
    ensures Run(h, calls + [c]) == Extend(Run(h, calls), c)
  {
    assert (calls + [c])[..|calls|] == calls;
  }

  lemma {:induction false} DirectionStays(h: History, calls: seq<Call>)
    requires h.state.stream.Running?
    ensures var s := Run(h, calls).state.stream;
            s.Running? && s.encrypting == h.state.stream.encrypting
  {
    hide Transform, Ciphertext, LastBlock, Grown;
    if calls != [] {
      DirectionStays(h, calls[..|calls| - 1]);
    }
  }

  /** Once the direction is latched, refused calls might as well not have been made. */
  lemma {:induction false} RefusedCallsAreInvisible(h: History, calls: seq<Call>)
    requires h.state.stream.Running?
    ensures Run(h, Kept(h, calls)) == Run(h, calls)
    ensures forall c :: c in Kept(h, calls) ==> c.encrypt == h.state.stream.encrypting && |c.data| % 8 == 0
  {
    hide Transform, Ciphertext, LastBlock, Grown;
    if calls != [] {
      var front, c := calls[..|calls| - 1], calls[|calls| - 1];
      RefusedCallsAreInvisible(h, front);
      DirectionStays(h, front);
      RunOneMore(h, Kept(h, front), c);
      assert Kept(h, front) + [] == Kept(h, front);
    }
  }

  function Pow2(k: nat): (p: nat)
    ensures p >= 1
  {
    if k == 0 then 1 else 2 * Pow2(k - 1)
  }

  /** With k reallocations the buffer is at least 2^k blocks long, and it is never more
      than twice what the longest data needs that got to the library. */
  ghost predicate IsBounded(h: History) {
    if h.reallocations == 0 then h.state.outlen == 0 && h.largest == 0 && h.input == []
    else
      && Pow2(h.reallocations) * BLOCKSIZE <= h.state.outlen <= 2 * (h.largest + BLOCKSIZE)
      && h.largest + BLOCKSIZE <= h.state.outlen
  }

  lemma ExtendIsBounded(h: History, c: Call)
    requires IsBounded(h)
    ensures IsBounded(Extend(h, c))
  {
    assert Pow2(h.reallocations + 1) == 2 * Pow2(h.reallocations);
    if Admitted(h.state.stream, c) && h.state.outlen < |c.data| + BLOCKSIZE {
      assert Pow2(0) == 1;
      assert Pow2(h.reallocations) * BLOCKSIZE <= |c.data| + BLOCKSIZE;
    }
  }

  /** So the number of reallocations is logarithmic in the longest such data. */
  lemma {:induction false} BufferIsBounded(calls: seq<Call>)
    ensures IsBounded(Run(NO_CALLS, calls))
  {
    if calls != [] {
      BufferIsBounded(calls[..|calls| - 1]);
      ExtendIsBounded(Run(NO_CALLS, calls[..|calls| - 1]), calls[|calls| - 1]);
    }
  }
}
