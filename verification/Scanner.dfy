// The scanner engine of flex (thrift/compiler/cpp/thriftl.cc): matching with a recorded state stack,
// backing up, sentinels and refilling the buffer in the middle of a token.
module Scanner {
  import opened ScannerTables

  datatype Status = New | Normal | EofPending
  datatype Refill = ContinueScan | EndOfFile | LastMatch | Overflow
  datatype Result = Matched(token: Token) | EndOfInput | Fatal
  datatype Resume = GotoMatch(state: nat) | GotoFindAction | Stop(result: Result)

  // The scan of p can stop after j characters: nothing longer is accepted.
  ghost predicate Stops(t: Tables, p: seq<Byte>, j: nat)
    requires t.Wf() && j <= |p|
  {
    j == |p| || t.Dead(t.Run(p[..j])) || t.Run(p[..j + 1]) == t.jam
  }

  // Backing up to the last accepting state of a stopped scan finds the longest match.
  lemma {:induction false} BackingUpFindsMatch(t: Tables, p: seq<Byte>, j: nat, i: nat)
    requires t.Wf() && 0 < i <= j <= |p| && Stops(t, p, j)
    requires t.Accepting(t.Run(p[..i]))
    requires forall m {:trigger t.Accepting(t.Run(p[..m]))} :: i < m <= j ==> !t.Accepting(t.Run(p[..m]))
    ensures t.Match(p) == i
  {
    forall m | i < m <= |p|
      ensures !t.Accepting(t.Run(p[..m]))
    {
      if m > j {
        if t.Dead(t.Run(p[..j])) {
          t.DeadForever(p, j, m);
        } else if m > j + 1 {
          t.DeadForever(p, j + 1, m);
        }
      }
    }
    t.LongestUnique(p, |p|, i);
  }

  // The run over a long enough text is dead before yytext or the buffer is full. In a state entered on
  // a NUL of the input the scanner goes on, even if the state is dead.
  ghost predicate Fits(t: Tables, bufSize: nat, lmax: nat, p: seq<Byte>)
    requires t.Wf() && 3 <= lmax && 3 <= bufSize
  {
    var limit := (if lmax < bufSize then lmax else bufSize) - 1;
    |p| < limit || t.Dead(t.Run(p[..limit - 1])) || (t.Dead(t.Run(p[..limit])) && p[limit - 1] != 0)
  }

  // Every token of p fits.
  ghost predicate TokensFit(t: Tables, bufSize: nat, lmax: nat, p: seq<Byte>)
    requires t.Wf() && 3 <= lmax && 3 <= bufSize
    decreases |p|
  {
    p == [] || (Fits(t, bufSize, lmax, p) && (t.NextTokenAccepted(p); TokensFit(t, bufSize, lmax, p[t.Match(p)..])))
  }

  class Lexer {
    const t: Tables
    const bufSize: nat
    const readSize: nat
    const lmax: nat
    // yy_ch_buf and yy_state_buf
    const buf: array<Byte>
    const states: array<nat>
    // yy_c_buf_p, yytext_ptr, yy_n_chars, the buffer's own yy_n_chars, yy_hold_char, yy_state_ptr
    var cp: nat
    var textPtr: nat
    var nChars: nat
    var bufNChars: nat
    var hold: Byte
    var statePtr: nat
    var status: Status
    // What YY_INPUT has not delivered yet.
    var source: seq<Byte>

    ghost predicate Sized()
      reads this
    {
      && t.Wf() && buf.Length == states.Length == bufSize + 2
      && 3 <= lmax && 3 <= bufSize && 1 <= readSize
    }

    // The buffer holds at most bufSize - 1 characters, then two sentinels; p is all that is left of
    // the input from index bp on.
    ghost predicate Buffered(bp: nat, p: seq<Byte>)
      reads this, buf
    {
      && Sized()
      && bp <= nChars < bufSize && buf[nChars] == 0 && buf[nChars + 1] == 0
      && p == buf[bp..nChars] + source
      && (status == New ==> nChars == bufNChars == 0)
      && (status == EofPending ==> source == [])
    }

    lemma {:induction false} BufferedAt(bp: nat, p: seq<Byte>, at: nat)
      requires Buffered(bp, p) && bp <= at < nChars
      ensures at - bp < |p| && p[at - bp] == buf[at]
    {
      assert buf[bp..nChars][at - bp] == buf[at];
    }

    // The buffer with the character held back for yytext's terminator in place.
    ghost function Restored(): seq<Byte>
      reads this, buf
      requires cp < buf.Length
    {
      buf[..][cp := hold]
    }

    // Between tokens.
    ghost predicate Valid()
      reads this, buf
    {
      && Sized()
      && cp <= nChars < bufSize && Restored()[nChars] == 0 && Restored()[nChars + 1] == 0
      && (status == New ==> nChars == bufNChars == 0)
      && (status == EofPending ==> source == [])
    }

    // The input not yet turned into tokens.
    ghost function Pending(): seq<Byte>
      reads this, buf
      requires Valid()
    {
      Restored()[cp..nChars] + source
    }

    constructor (t: Tables, bufSize: nat, readSize: nat, lmax: nat, file: seq<Byte>)
      requires t.Wf() && 3 <= lmax && 3 <= bufSize && 1 <= readSize
      ensures Valid() && fresh(buf) && fresh(states) && Pending() == file
      ensures this.t == t && this.lmax == lmax && this.bufSize == bufSize
    {
      this.t, this.bufSize, this.readSize, this.lmax := t, bufSize, readSize, lmax;
      buf := new Byte[bufSize + 2](_ => 0);
      states := new nat[bufSize + 2];
      cp, textPtr, nChars, bufNChars, hold, statePtr := 0, 0, 0, 0, 0, 0;
      status := New;
      source := file;
    }

    // One transition through the compressed tables.
    method Transition(state: nat, c: nat) returns (r: nat)
      requires t.InBounds() && 1 <= state < |t.base| && c < |t.meta|
      ensures r == t.Next(state, c) && exists chain :: t.Resolves(state, c, chain, r)
    {
      var s: nat, k: nat := state, c;
      ghost var chain: seq<(nat, nat)> := [(s, k)];
      assert t.EntryInBounds(s, k);
      while t.chk[t.base[s] + k] != s
        invariant 1 <= s < |t.base| && k < |t.meta| && t.EntryInBounds(s, k)
        invariant t.Chain(chain) && chain[0] == (state, c) && chain[|chain| - 1] == (s, k)
        decreases t.rank[s]
      {
        s := t.def[s];
        if s >= t.template {
          k := t.meta[k];
        }
        assert t.EntryInBounds(s, k);
        chain := chain + [(s, k)];
      }
      r := t.nxt[t.base[s] + k];
      assert t.Resolves(state, c, chain, r);
      t.ResolvesNext(state, c, chain, r);
    }

    // The stack records the run over the first j characters of p, alive before the last, and behind
    // it unless it is a NUL.
    ghost predicate Trace(p: seq<Byte>, j: nat)
      reads states
      requires t.Wf()
    {
      Recorded(p, j) && Alive(p, j)
    }

    ghost predicate Recorded(p: seq<Byte>, j: nat)
      reads states
      requires t.Wf()
    {
      j <= |p| && j < states.Length && forall i {:trigger states[i]} :: 0 <= i <= j ==> states[i] == t.Run(p[..i])
    }

    ghost predicate Alive(p: seq<Byte>, j: int)
      requires t.Wf()
    {
      && j <= |p| && (forall i {:trigger t.Dead(t.Run(p[..i]))} :: 0 <= i < j ==> !t.Dead(t.Run(p[..i])))
      && (0 < j && t.Dead(t.Run(p[..j])) ==> p[j - 1] == 0)
    }

    // At yycp in the match loop: j characters scanned, then possibly the sentinel.
    ghost predicate Matching(bp: nat, p: seq<Byte>, j: nat, eob: bool, yycp: nat, s: nat)
      reads this, buf, states
      requires t.Wf()
    {
      && Buffered(bp, p) && bp + j <= nChars && Recorded(p, j) && Alive(p, j) && statePtr == yycp - bp + 1
      && if eob then yycp == bp + j + 1 && s == t.eob == states[j + 1] && buf[bp + j] == 0
         else yycp == bp + j && s == t.Run(p[..j])
    }

    // The match loop has ended at yycp: in a dead state after j characters, or past the sentinel.
    ghost predicate MatchEnded(bp: nat, p: seq<Byte>, j: nat, eob: bool, yycp: nat)
      reads this, buf, states
      requires t.Wf()
    {
      && Buffered(bp, p) && bp + j <= nChars && Recorded(p, j) && statePtr == yycp - bp + 1
      && if eob then
           && yycp == bp + j + 2 && states[j + 1] == t.eob && states[j + 2] == t.jam
           && buf[bp + j] == 0 && Alive(p, j)
         else 1 <= j && yycp == bp + j && t.Dead(t.Run(p[..j])) && Alive(p, j - 1)
    }

    // One turn of the match loop. From a state of the run the character at yycp is either input, and
    // the run goes on, or a NUL, taken for the sentinel; the end-of-buffer state jams.
    method Turn(bp: nat, ghost p: seq<Byte>, ghost j: nat, ghost eob: bool, yycp: nat, s: nat)
      returns (s': nat, ghost j': nat, ghost eob': bool)
      requires t.Wf() && Matching(bp, p, j, eob, yycp, s)
      modifies `statePtr, states
      ensures t.State(s') && j <= j'
      ensures if t.Dead(s') then MatchEnded(bp, p, j', eob', yycp + 1) else Matching(bp, p, j', eob', yycp + 1, s')
    {
      var b := buf[yycp];
      s' := Transition(s, t.ec[b as int]);
      Record(s', bp, p, j);
      j', eob' := j, true;
      if !eob && b != 0 {
        j', eob' := j + 1, false;
        assert states[j + 1] == s';
        CharacterScanned(bp, p, j, yycp, s, s');
      } else {
        assert s' == if eob then t.jam else t.Next(s, 0);
        SentinelScanned(bp, p, j, eob, yycp, s, s');
      }
    }

    // Push a state behind those of the first j characters.
    method Record(s: nat, ghost bp: nat, ghost p: seq<Byte>, ghost j: nat)
      requires Buffered(bp, p) && Recorded(p, j) && j < statePtr < states.Length
      modifies `statePtr, states
      ensures Buffered(bp, p) && Recorded(p, j)
      ensures statePtr == old(statePtr) + 1 && states[..statePtr] == old(states[..statePtr]) + [s]
    {
      states[statePtr] := s;
      statePtr := statePtr + 1;
    }

    // The sentinel leads to the end-of-buffer state, and that to jamming.
    lemma {:induction false} SentinelScanned(bp: nat, p: seq<Byte>, j: nat, eob: bool, yycp: nat, s: nat, s': nat)
      requires t.Wf() && Buffered(bp, p) && bp + j <= nChars && Recorded(p, j) && Alive(p, j) && buf[bp + j] == 0
      requires 0 < statePtr == yycp - bp + 2 <= states.Length && states[statePtr - 1] == s'
      requires yycp == bp + j + (if eob then 1 else 0)
      requires if eob then s == t.eob == states[j + 1] && s' == t.jam else s == t.Run(p[..j]) && s' == t.Next(s, 0)
      ensures t.State(s')
      ensures if t.Dead(s') then MatchEnded(bp, p, j, true, yycp + 1) else Matching(bp, p, j, true, yycp + 1, s')
    {
      t.RunNeverEob(p[..j]);
    }

    // The state entered on a character of the input extends the recorded run.
    lemma {:induction false} CharacterScanned(bp: nat, p: seq<Byte>, j: nat, yycp: nat, s: nat, s': nat)
      requires t.Wf() && Buffered(bp, p) && yycp == bp + j <= nChars && buf[yycp] != 0
      requires Recorded(p, j) && Alive(p, j) && s == t.Run(p[..j]) && s' == t.Next(s, t.ec[buf[yycp] as int])
      requires j + 1 < states.Length && states[j + 1] == s' && statePtr == j + 2
      ensures if t.Dead(s') then MatchEnded(bp, p, j + 1, false, yycp + 1)
              else Matching(bp, p, j + 1, false, yycp + 1, s')
    {
      assert p[j] == buf[yycp];
      RunExtends(p, j);
      assert Recorded(p, j + 1);
      if !t.Dead(s') {
        assert !t.Dead(s);
        assert Alive(p, j + 1);
      }
    }

    lemma {:induction false} RunExtends(p: seq<Byte>, j: nat)
      requires t.Wf() && j < |p|
      ensures t.Run(p[..j + 1]) == t.Next(t.Run(p[..j]), t.Class(p[j]))
    {
      assert p[..j + 1] == p[..j] + [p[j]];
      t.RunSnoc(p[..j], p[j]);
    }

    // yy_match, from k recorded characters.
    method MatchLoop(bp: nat, ghost p: seq<Byte>, ghost k: nat, start: nat, state: nat)
      returns (yycp: nat, ghost j: nat, ghost eob: bool)
      requires Buffered(bp, p) && Trace(p, k) && start == bp + k <= nChars
      requires statePtr == k + 1 && state == states[k]
      modifies `statePtr, states
      ensures k <= j && MatchEnded(bp, p, j, eob, yycp)
    {
      yycp, j, eob := start, k, false;
      var s := state;
      while true
        invariant k <= j && t.State(s) && Matching(bp, p, j, eob, yycp, s)
        decreases nChars + 2 - yycp
      {
        s, j, eob := Turn(bp, p, j, eob, yycp, s);
        yycp := yycp + 1;
        if t.base[s] == t.jamBase {
          return;
        }
      }
    }

    // The recorded states after i up to j accept nothing.
    ghost predicate NothingAfter(p: seq<Byte>, i: int, j: nat)
      requires t.Wf() && j <= |p|
    {
      forall m {:trigger t.Accepting(t.Run(p[..m]))} :: 0 <= m && i < m <= j ==> !t.Accepting(t.Run(p[..m]))
    }

    // yy_find_action: back up to the last state that accepts something.
    method Backup(bp: nat, end: nat, ghost p: seq<Byte>, ghost j: nat, ghost eob: bool)
      returns (act: int, yycp: nat, ghost i: nat)
      requires t.Wf() && Recorded(p, j) && statePtr <= states.Length && statePtr == end - bp + 1
      requires !eob ==> 1 <= j && end == bp + j
      requires eob ==> end == bp + j + 2 && states[j + 1] == t.eob && states[j + 2] == t.jam
      modifies `statePtr
      ensures eob ==> act == END_OF_BUFFER && yycp == bp + j + 1
      ensures !eob ==> 1 <= i <= j && yycp == bp + i && NothingAfter(p, i, j)
      ensures !eob ==> t.Accepting(t.Run(p[..i])) && act == t.Rule(t.Run(p[..i])) && act != END_OF_BUFFER
    {
      if !eob {
        t.FirstCharacterAccepted(p);
      }
      ghost var top := statePtr - 1;
      act, yycp := FindAction(bp, end, if eob then j + 1 else 1);
      i := statePtr;
      if !eob {
        assert forall m {:trigger t.Accepting(t.Run(p[..m]))} :: i < m <= j ==> states[m] == t.Run(p[..m]);
        t.RunNeverEob(p[..i]);
      }
    }

    // Its loop, on the recorded states alone, of which the one at low accepts something.
    method FindAction(bp: nat, end: nat, ghost low: nat) returns (act: int, yycp: nat)
      requires t.Wf() && low < statePtr <= states.Length && statePtr == end - bp + 1
      requires forall m {:trigger states[m]} :: low <= m < statePtr ==> t.State(states[m])
      requires t.Accepting(states[low])
      modifies `statePtr
      ensures low <= statePtr < old(statePtr) && yycp == bp + statePtr
      ensures t.State(states[statePtr]) && t.Accepting(states[statePtr]) && act == t.Rule(states[statePtr])
      ensures forall m {:trigger states[m]} :: statePtr < m < old(statePtr) ==> !t.Accepting(states[m])
    {
      statePtr := statePtr - 1;
      yycp := end;
      var s, lp := TopState();
      while !(lp != 0 && lp < t.accept[s + 1])
        invariant low <= statePtr < old(statePtr) && statePtr == yycp - bp
        invariant s == states[statePtr] && t.RulesInBounds(s) && lp == t.accept[s]
        invariant forall m {:trigger states[m]} :: statePtr < m < old(statePtr) ==> !t.Accepting(states[m])
        decreases statePtr
      {
        assert !t.Accepting(s);
        yycp := yycp - 1;
        statePtr := statePtr - 1;
        s, lp := TopState();
      }
      act := t.acclist[lp];
    }

    // The state on top of the recorded ones, and where its rules begin.
    method TopState() returns (s: nat, lp: nat)
      requires t.Wf() && statePtr < states.Length && t.State(states[statePtr])
      ensures s == states[statePtr] && t.RulesInBounds(s) && lp == t.accept[s]
    {
      s := states[statePtr];
      assert t.RulesInBounds(s);
      lp := t.accept[s];
    }

    // One more character of the input, a NUL being one like any other.
    method Replay(ghost p: seq<Byte>, ghost j: nat, s: nat, b: Byte) returns (s': nat)
      requires t.Wf() && Recorded(p, j) && statePtr == j + 1 < states.Length && s == states[j]
      requires j < |p| && p[j] == b
      modifies `statePtr, states
      ensures Recorded(p, j + 1) && statePtr == j + 2 && s' == states[j + 1]
    {
      RunExtends(p, j);
      s' := Transition(s, if b != 0 then t.ec[b as int] else 1);
      states[statePtr] := s';
      statePtr := statePtr + 1;
    }

    // yy_get_previous_state: replay the run over the k characters before yy_c_buf_p.
    method PreviousState(ghost p: seq<Byte>, ghost k: nat) returns (s: nat)
      requires Buffered(textPtr, p) && cp == textPtr + k <= nChars
      modifies `statePtr, states
      ensures Recorded(p, k) && statePtr == k + 1 && s == states[k]
    {
      s := t.start;
      states[0] := s;
      statePtr := 1;
      var yycp := textPtr;
      while yycp < cp
        invariant textPtr <= yycp <= cp && statePtr == yycp - textPtr + 1
        invariant Recorded(p, yycp - textPtr) && s == states[yycp - textPtr] && Buffered(textPtr, p)
      {
        BufferedAt(textPtr, p, yycp);
        s := Replay(p, yycp - textPtr, s, buf[yycp]);
        yycp := yycp + 1;
      }
    }

    // yy_try_NUL_trans: the transition on a NUL of the input, 0 when it jams.
    method TryNulTransition(ghost p: seq<Byte>, ghost j: nat, s: nat) returns (next: nat)
      requires t.Wf() && Recorded(p, j) && statePtr == j + 1 < states.Length && s == states[j]
      requires j < |p| && p[j] == 0
      modifies `statePtr, states
      ensures next == 0 ==> t.Run(p[..j + 1]) == t.jam && Recorded(p, j) && statePtr == j + 1
      ensures next != 0 ==> t.Run(p[..j + 1]) != t.jam
      ensures next != 0 ==> Recorded(p, j + 1) && statePtr == j + 2 && next == states[j + 1]
    {
      RunExtends(p, j);
      var r := Transition(s, 1);
      if r == t.jam {
        return 0;
      }
      states[statePtr] := r;
      statePtr := statePtr + 1;
      next := r;
    }

    // YY_INPUT: some nonempty prefix of what is left, nothing only at the end of the file.
    method Input(max: nat) returns (chunk: seq<Byte>)
      requires 1 <= max
      modifies `source
      ensures old(source) == chunk + source && |chunk| <= max
      ensures chunk == [] <==> old(source) == []
    {
      var n: nat :| n <= max && n <= |source| && (n == 0 <==> source == []);
      chunk, source := source[..n], source[n..];
    }

    // yyrestart: flush the buffer.
    method Restart()
      requires Sized()
      modifies `cp, `textPtr, `nChars, `bufNChars, `hold, `status, buf
      ensures status == New && cp == textPtr == nChars == bufNChars == 0 && hold == 0
      ensures buf[0] == buf[1] == 0
    {
      bufNChars := 0;
      buf[0], buf[1] := 0, 0;
      status := New;
      nChars, textPtr, cp, hold := bufNChars, 0, 0, buf[0];
    }

    // The partial token goes to the front of the buffer.
    method MoveToFront(k: nat)
      requires textPtr + k <= buf.Length
      modifies buf
      ensures buf[..k] == old(buf[textPtr..textPtr + k])
    {
      for i := 0 to k
        invariant forall q :: 0 <= q < i ==> buf[q] == old(buf[textPtr + q])
        invariant forall q :: i <= q < buf.Length ==> buf[q] == old(buf[q])
      {
        buf[i] := buf[textPtr + i];
      }
    }

    method Fill(k: nat, chunk: seq<Byte>)
      requires k + |chunk| <= buf.Length
      modifies buf
      ensures buf[..k + |chunk|] == old(buf[..k]) + chunk
    {
      for i := 0 to |chunk|
        invariant buf[..k + i] == old(buf[..k]) + chunk[..i]
      {
        buf[k + i] := chunk[i];
      }
    }

    // yy_get_next_buffer, at the end of the buffer with the partial token starting at yytext_ptr.
    method GetNextBuffer(ghost p: seq<Byte>) returns (r: Refill)
      requires Buffered(textPtr, p) && cp == nChars + 1 && status != New
      modifies `cp, `textPtr, `nChars, `bufNChars, `hold, `status, `source, buf
      ensures r == Overflow ==> old(nChars - textPtr) == bufSize - 1
      ensures r != Overflow ==> textPtr == 0 && Buffered(0, p)
      ensures r == EndOfFile <==> p == []
      ensures r == EndOfFile ==> cp == 0 && hold == 0 && nChars == 0
      ensures r == LastMatch ==> nChars == old(nChars - textPtr) == |p| && source == []
      ensures r == ContinueScan ==> old(nChars - textPtr) < nChars && |source| < |old(source)|
    {
      var k := cp - textPtr - 1;
      ghost var token := buf[textPtr..nChars];
      MoveToFront(k);
      ghost var unread := source;
      var ok, chunk := ReadMore(k);
      if !ok {
        return Overflow;
      }
      Rejoined(token, chunk, source);
      r := AfterRead(k);
      // The buffer never has to be extended.
      assert nChars + k < bufSize;
      SetEnd(k);
      assert p == buf[0..nChars] + source;
    }

    // The sentinels go behind all that is in the buffer now.
    method SetEnd(k: nat)
      requires k + nChars < bufSize && buf.Length == bufSize + 2
      modifies `nChars, `textPtr, buf
      ensures nChars == old(nChars) + k && textPtr == 0 && buf[nChars] == buf[nChars + 1] == 0
      ensures buf[0..nChars] == old(buf[..k + nChars])
    {
      nChars := nChars + k;
      buf[nChars], buf[nChars + 1] := 0, 0;
      textPtr := 0;
    }

    static lemma {:induction false} Rejoined(token: seq<Byte>, chunk: seq<Byte>, rest: seq<Byte>)
      ensures token + (chunk + rest) == token + chunk + rest
      ensures token + (chunk + rest) == [] <==> token == [] && chunk == [] && rest == []
    {
    }

    // Whether the scan goes on, behind a partial token of k characters.
    method AfterRead(k: nat) returns (r: Refill)
      requires Sized()
      modifies `cp, `textPtr, `nChars, `bufNChars, `hold, `status, buf
      ensures nChars == old(nChars) && (old(nChars) == 0 || bufNChars == old(bufNChars))
      ensures r == if nChars > 0 then ContinueScan else if k == 0 then EndOfFile else LastMatch
      ensures r == EndOfFile ==> status == New && cp == 0 && hold == 0 && bufNChars == 0
      ensures r == LastMatch ==> status == EofPending
      ensures r == ContinueScan ==> status == old(status)
      ensures r != EndOfFile ==> buf[..] == old(buf[..])
    {
      if nChars == 0 {
        if k == 0 {
          r := EndOfFile;
          Restart();
        } else {
          r := LastMatch;
          status := EofPending;
        }
      } else {
        r := ContinueScan;
      }
    }

    // Read in more data after the first k characters, unless there is no room.
    method ReadMore(k: nat) returns (ok: bool, ghost chunk: seq<Byte>)
      requires Sized() && k < bufSize && (status == EofPending ==> source == [])
      modifies `nChars, `bufNChars, `source, buf
      ensures !ok ==> k == bufSize - 1
      ensures ok ==> nChars == bufNChars == |chunk| && k + nChars < bufSize
      ensures ok ==> buf[..k + nChars] == old(buf[..k]) + chunk && old(source) == chunk + source
      ensures ok && nChars == 0 ==> source == []
    {
      if status == EofPending {
        nChars, bufNChars := 0, 0;
        return true, [];
      }
      var toRead := bufSize - k - 1;
      if toRead <= 0 {
        return false, [];
      }
      if toRead > readSize {
        toRead := readSize;
      }
      var read := Input(toRead);
      Fill(k, read);
      nChars := |read|;
      bufNChars := nChars;
      chunk := read;
      ok := true;
    }

    // Where scanning resumes: with k characters of p recorded, after progress over j characters.
    ghost predicate Resumes(resume: Resume, p: seq<Byte>, k: nat)
      reads this, buf, states
      requires t.Wf()
    {
      match resume
      case Stop(EndOfInput) => p == [] && Valid() && Pending() == []
      case Stop(Matched(token)) => |token.text| < lmax && Valid() && NextTokenOf(p, token, Pending())
      case Stop(Fatal) => true
      case GotoMatch(state) => AtCharacter(p, k) && state == states[k]
      case GotoFindAction => AtCharacter(p, k) && 1 <= k && Stops(t, p, k)
    }

    ghost predicate AtCharacter(p: seq<Byte>, k: nat)
      reads this, buf, states
      requires t.Wf()
    {
      Buffered(textPtr, p) && Trace(p, k) && cp == textPtr + k <= nChars && statePtr == k + 1
    }

    // What looked like the sentinel is a character of the input.
    method RealNul(ghost p: seq<Byte>, ghost j: nat) returns (resume: Resume, ghost k: nat)
      requires Buffered(textPtr, p) && Trace(p, j)
      requires textPtr + j < nChars && cp == textPtr + j + 1 && buf[textPtr + j] == 0
      modifies `cp, `statePtr, states
      ensures resume.GotoMatch? || resume.GotoFindAction?
      ensures Resumes(resume, p, k)
      ensures resume.GotoMatch? ==> k == j + 1
    {
      var state := ReplayBefore(p, j);
      NulOfInput(p, j);
      var next := TryNulTransition(p, j, state);
      if next != 0 {
        cp := cp + 1;
        resume, k := GotoMatch(next), j + 1;
      } else {
        resume, k := GotoFindAction, j;
      }
    }

    // The state before the NUL.
    method ReplayBefore(ghost p: seq<Byte>, ghost j: nat) returns (state: nat)
      requires Buffered(textPtr, p) && Trace(p, j)
      requires textPtr + j < nChars && cp == textPtr + j + 1 && buf[textPtr + j] == 0
      modifies `cp, `statePtr, states
      ensures AtCharacter(p, j) && state == states[j] && j < |p| && p[j] == 0
    {
      BufferedAt(textPtr, p, textPtr + j);
      cp := cp - 1;
      state := PreviousState(p, j);
    }

    // The sentinel: get more input.
    method NeedInput(ghost p: seq<Byte>, ghost j: nat) returns (resume: Resume, ghost k: nat)
      requires Buffered(textPtr, p) && Trace(p, j) && status != New
      requires textPtr + j == nChars && cp == nChars + 1
      modifies `cp, `textPtr, `nChars, `bufNChars, `hold, `status, `source, `statePtr, buf, states
      ensures Resumes(resume, p, k)
      ensures resume.Stop? && p != [] ==> resume == Stop(Fatal) && j == bufSize - 1
      ensures resume.Stop? && p == [] ==> resume == Stop(EndOfInput)
      ensures resume.GotoMatch? ==> |source| < |old(source)|
    {
      var amount := cp - textPtr - 1;
      k := j;
      var r := GetNextBuffer(p);
      match r {
        case Overflow =>
          resume := Stop(Fatal);
        case EndOfFile =>
          cp := textPtr;
          resume := Stop(EndOfInput);
          assert Restored() == buf[..];
        case ContinueScan =>
          cp := textPtr + amount;
          var state := PreviousState(p, j);
          resume := GotoMatch(state);
        case LastMatch =>
          cp := nChars;
          var _ := PreviousState(p, j);
          resume := GotoFindAction;
      }
    }

    // YY_END_OF_BUFFER after j characters: a NUL of the input, or the end of what was read.
    method EndOfBuffer(ghost p: seq<Byte>, ghost j: nat) returns (resume: Resume, ghost k: nat)
      requires Buffered(textPtr, p) && Trace(p, j)
      requires textPtr + j <= nChars && cp == textPtr + j + 1 && buf[textPtr + j] == 0
      modifies `cp, `textPtr, `nChars, `bufNChars, `hold, `status, `source, `statePtr, buf, states
      ensures Resumes(resume, p, k)
      ensures resume.Stop? && p != [] ==> resume == Stop(Fatal) && j == bufSize - 1
      ensures resume.Stop? && p == [] ==> resume == Stop(EndOfInput)
      ensures resume.GotoMatch? ==>
                || |source| < |old(source)|
                || (source == old(source) && nChars == old(nChars) && textPtr == old(textPtr) && k > j)
    {
      if status == New {
        nChars := bufNChars;
        status := Normal;
      }
      if cp <= nChars {
        resume, k := RealNul(p, j);
      } else {
        resume, k := NeedInput(p, j);
      }
    }

    // The transition on a NUL that belongs to the input.
    lemma {:induction false} NulOfInput(p: seq<Byte>, j: nat)
      requires t.Wf() && j < |p| && p[j] == 0 && Alive(p, j)
      ensures t.Run(p[..j + 1]) == t.Next(t.Run(p[..j]), 1)
      ensures t.Run(p[..j + 1]) == t.jam ==> 1 <= j && Stops(t, p, j)
      ensures t.Run(p[..j + 1]) != t.jam ==> Alive(p, j + 1)
    {
      RunExtends(p, j);
      if j == 0 {
        t.FirstCharacterAccepted(p);
      }
    }

    // yy_match and yy_find_action: an action and the end yycp of its text. Unless the end of the
    // buffer was reached, j characters were scanned and the first i of them are the longest match.
    method Scan(ghost p: seq<Byte>, ghost k: nat, resume: Resume)
      returns (act: int, yycp: nat, ghost j: nat, ghost i: nat)
      requires t.Wf() && Sized() && !resume.Stop? && Resumes(resume, p, k)
      modifies `statePtr, states
      ensures act == END_OF_BUFFER ==> resume.GotoMatch? && k <= j && Trace(p, j) && yycp == textPtr + j + 1
      ensures act == END_OF_BUFFER ==> textPtr + j <= nChars && buf[textPtr + j] == 0
      ensures act != END_OF_BUFFER ==> 1 <= i <= j && textPtr + j <= nChars && yycp == textPtr + i
      ensures act != END_OF_BUFFER ==> t.Match(p) == i && t.Accepting(t.Run(p[..i])) && act == t.Rule(t.Run(p[..i]))
    {
      ghost var eob := false;
      var end := cp;
      j := k;
      if resume.GotoMatch? {
        end, j, eob := MatchLoop(textPtr, p, k, cp, resume.state);
      }
      act, yycp, i := Backup(textPtr, end, p, j, eob);
      if !eob {
        BackingUpFindsMatch(t, p, j, i);
      }
    }

    // The run is alive up to where it accepts.
    lemma {:induction false} AcceptedAlive(p: seq<Byte>, i: nat)
      requires t.Wf() && 0 < i <= |p| && t.Accepting(t.Run(p[..i]))
      ensures Alive(p, i - 1)
    {
      forall m | 0 <= m < i
        ensures !t.Dead(t.Run(p[..m]))
      {
        if t.Dead(t.Run(p[..m])) {
          t.DeadForever(p, m, i);
        }
      }
    }

    // A text that stays alive for n characters does not fit when n reaches a limit.
    lemma {:induction false} TooLong(p: seq<Byte>, n: int)
      requires t.Wf() && 3 <= lmax && 3 <= bufSize && Alive(p, n)
      requires n >= lmax - 1 || n >= bufSize - 1
      ensures !Fits(t, bufSize, lmax, p)
    {
    }

    // YY_DO_BEFORE_ACTION
    method BeforeAction(yycp: nat) returns (ok: bool, text: seq<Byte>)
      requires textPtr <= yycp < buf.Length
      modifies `cp, `hold, buf
      ensures hold == old(buf[yycp]) && buf[..] == old(buf[..])[yycp := 0]
      ensures text == old(buf[textPtr..yycp]) && (ok <==> |text| < lmax)
      ensures ok ==> cp == yycp
    {
      hold := buf[yycp];
      buf[yycp] := 0;
      text := buf[textPtr..yycp];
      ok := |text| < lmax;
      if ok {
        cp := yycp;
      }
    }

    // The action of a rule: the token is complete.
    method RuleAction(ghost p: seq<Byte>, ghost i: nat, act: int, yycp: nat) returns (r: Result)
      requires Buffered(textPtr, p) && 1 <= i <= |p| && yycp == textPtr + i <= nChars
      requires t.Match(p) == i && t.Accepting(t.Run(p[..i])) && act == t.Rule(t.Run(p[..i]))
      modifies `cp, `hold, buf
      ensures r == Fatal || r.Matched?
      ensures r == Fatal ==> !Fits(t, bufSize, lmax, p)
      ensures r.Matched? ==> |r.token.text| < lmax && Valid() && NextTokenOf(p, r.token, Pending())
    {
      ghost var before := buf[..];
      assert p[..i] == before[textPtr..yycp] && p[i..] == before[yycp..nChars] + source;
      var ok, text := BeforeAction(yycp);
      if ok {
        assert Restored() == before;
        assert Pending() == p[i..];
        r := Matched(Token(act, text));
      } else {
        AcceptedAlive(p, i);
        TooLong(p, i - 1);
        r := Fatal;
      }
    }

    // The action of the end-of-buffer state: undo the setting up of yytext and get more input.
    method EndAction(ghost p: seq<Byte>, ghost j: nat, yycp: nat) returns (resume: Resume, ghost k: nat)
      requires Buffered(textPtr, p) && Trace(p, j)
      requires textPtr + j <= nChars && yycp == textPtr + j + 1 && buf[textPtr + j] == 0
      modifies `cp, `textPtr, `nChars, `bufNChars, `hold, `status, `source, `statePtr, buf, states
      ensures Resumes(resume, p, k)
      ensures resume == Stop(Fatal) ==> !Fits(t, bufSize, lmax, p)
      ensures Progress(old(|source|), old(nChars - textPtr) - j, resume, k)
    {
      ghost var before := buf[..];
      var ok, _ := BeforeAction(yycp);
      if !ok {
        TooLong(p, j);
        return Stop(Fatal), j;
      }
      buf[yycp] := hold;
      assert buf[..] == before;
      resume, k := EndOfBuffer(p, j);
      if resume == Stop(Fatal) {
        TooLong(p, j);
      }
    }

    // Input was read, or more of the buffer scanned, before matching goes on.
    ghost predicate Progress(unread: nat, unscanned: int, resume: Resume, k: nat)
      reads this
    {
      resume.GotoMatch? ==> |source| < unread || (|source| == unread && nChars - textPtr - k < unscanned)
    }

    // One turn of yylex's loop up to an action, and the end-of-buffer action itself.
    method Turns(ghost p: seq<Byte>, ghost k: nat, resume: Resume) returns (resume': Resume, ghost k': nat)
      requires Sized() && !resume.Stop? && Resumes(resume, p, k)
      modifies this, buf, states
      ensures Sized() && Resumes(resume', p, k')
      ensures resume' == Stop(Fatal) ==> !Fits(t, bufSize, lmax, p)
      ensures Progress(old(|source|), old(nChars - textPtr) - k, resume', k')
      ensures !resume'.Stop? ==> resume.GotoMatch?
    {
      k' := k;
      var act, yycp, j, i := Scan(p, k, resume);
      if act == END_OF_BUFFER {
        resume', k' := EndAction(p, j, yycp);
      } else {
        var r := RuleAction(p, i, act, yycp);
        resume' := Stop(r);
      }
    }

    // The start of a token: restore the character held back, start a new run.
    method Begin() returns (resume: Resume)
      requires Valid()
      modifies `textPtr, `statePtr, buf, states
      ensures Sized() && resume.GotoMatch? && Resumes(resume, old(Pending()), 0)
    {
      ghost var p := Pending();
      buf[cp] := hold;
      assert buf[..] == old(Restored());
      textPtr := cp;
      states[0], statePtr := t.start, 1;
      resume := GotoMatch(t.start);
    }

    // One token.
    method NextToken() returns (r: Result)
      requires Valid()
      modifies this, buf, states
      ensures r.EndOfInput? <==> old(Pending()) == []
      ensures r.EndOfInput? ==> Valid() && Pending() == []
      ensures r.Matched? ==> Valid() && NextTokenOf(old(Pending()), r.token, Pending()) && |r.token.text| < lmax
      ensures r.Fatal? ==> !Fits(t, bufSize, lmax, old(Pending()))
    {
      ghost var p, k := Pending(), 0;
      var resume := Begin();
      while !resume.Stop?
        invariant Sized() && Resumes(resume, p, k)
        invariant resume == Stop(Fatal) ==> !Fits(t, bufSize, lmax, p)
        decreases if resume.GotoMatch? then 2 else if resume.GotoFindAction? then 1 else 0,
                  |source|, nChars - textPtr - k
      {
        resume, k := Turns(p, k, resume);
      }
      r := resume.result;
    }

    lemma {:induction false} FirstToken(p: seq<Byte>, token: Token, rest: seq<Byte>)
      requires t.Wf() && NextTokenOf(p, token, rest)
      ensures t.Tokenize(p) == [token] + t.Tokenize(rest) && |rest| < |p|
      ensures 3 <= lmax && 3 <= bufSize && TokensFit(t, bufSize, lmax, p) ==> TokensFit(t, bufSize, lmax, rest)
    {
      t.NextTokenAccepted(p);
      var k := t.Match(p);
      assert token.text == p[..k] && rest == p[k..];
    }

    static lemma {:induction false} Append(tokens: seq<Token>, token: Token, rest: seq<Token>)
      ensures tokens + ([token] + rest) == tokens + [token] + rest
    {
    }

    // All the tokens up to the end of the input.
    method AllTokens() returns (ok: bool, tokens: seq<Token>)
      requires Valid()
      modifies this, buf, states
      ensures ok ==> tokens == t.Tokenize(old(Pending()))
      ensures tokens <= t.Tokenize(old(Pending()))
      ensures TokensFit(t, bufSize, lmax, old(Pending())) ==> ok
    {
      ghost var p := Pending();
      tokens, ok := [], true;
      while true
        invariant Valid() && t.Tokenize(p) == tokens + t.Tokenize(Pending())
        invariant TokensFit(t, bufSize, lmax, p) ==> TokensFit(t, bufSize, lmax, Pending())
        decreases |Pending()|
      {
        ghost var q := Pending();
        var r := NextToken();
        match r {
          case EndOfInput =>
            return;
          case Fatal =>
            return false, tokens;
          case Matched(token) =>
            FirstToken(q, token, Pending());
            Append(tokens, token, t.Tokenize(Pending()));
            tokens := tokens + [token];
        }
      }
    }

    // The first token of p by longest match and first rule, and what remains.
    ghost predicate NextTokenOf(p: seq<Byte>, token: Token, rest: seq<Byte>)
      requires t.Wf()
    {
      && p != [] && p == token.text + rest && |token.text| == t.Match(p)
      && t.Accepting(t.Run(token.text)) && token.rule == t.Rule(t.Run(token.text))
    }
  }

  // A whole file, however YY_INPUT cuts it into pieces: the longest prefixes of it that match a rule by the
  // uncompressed tables, each with the first rule.
  method ScanFile(t: Tables, bufSize: nat, readSize: nat, lmax: nat, file: seq<Byte>)
    returns (ok: bool, tokens: seq<Token>)
    requires t.Wf() && 3 <= lmax && 3 <= bufSize && 1 <= readSize
    ensures ok ==> tokens == t.Tokenize(file)
    ensures tokens <= t.Tokenize(file)
    ensures TokensFit(t, bufSize, lmax, file) ==> ok
    ensures ok ==> forall dense :: t.Uncompressed(dense) ==> t.LongestFirst(dense, file, tokens)
  {
    var lexer := new Lexer(t, bufSize, readSize, lmax, file);
    ok, tokens := lexer.AllTokens();
    forall dense | t.Uncompressed(dense)
      ensures ok ==> t.LongestFirst(dense, file, tokens)
    {
      t.TokenizeLongestFirst(dense, file);
    }
  }
}
