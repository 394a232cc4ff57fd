/** The driver itself: one object per port, whose methods update its fields in
    place. Each method is one of the atomic steps of SerialPort; State() is the
    value that the steps speak of. */
module SerialDriver {
  import opened Rings
  import opened SerialPort

  datatype Error = E_OK | E_OBJ | E_SYS

  class Semaphore {
    var count: nat

    constructor (initial: nat)
      ensures count == initial
    {
      count := initial;
    }

    /** sig_sem: refused at the maximum count. */
    method Signal() returns (ok: bool)
      modifies this
      ensures ok <==> old(count) != SEM_MAX
      ensures count == if ok then old(count) + 1 else old(count)
    {
      ok := count != SEM_MAX;
      if ok { count := count + 1; }
    }
  }

  /** The SIO port as the driver sees it. How many characters it still takes is up to the hardware. */
  class SioPort {
    var room: nat
    var sendReady: bool
    ghost var wire: seq<Sent>

    constructor ()
      ensures room == 0 && !sendReady && wire == []
    {
      room, sendReady, wire := 0, false, [];
    }

    method PutChar(c: char, ghost x: Sent) returns (ok: bool)
      requires x.c == c
      modifies this
      ensures ok <==> old(room) > 0
      ensures room == (if ok then old(room) - 1 else old(room)) && sendReady == old(sendReady)
      ensures wire == if ok then old(wire) + [x] else old(wire)
    {
      ok := room > 0;
      if ok {
        room := room - 1;
        wire := wire + [x];
      }
    }
  }

  class SerialPortMain {
    const sio: SioPort
    const sendSemaphore: Semaphore
    const receiveSemaphore: Semaphore
    const receiveBuffer: array<char>
    const sendBuffer: array<char>
    var openFlag: bool
    var errorFlag: bool
    var ioControl: IoControl
    var receiveReadPointer: nat
    var receiveWritePointer: nat
    var receiveCount: nat
    var receiveFlowControl: char
    var receiveStopped: bool
    var sendReadPointer: nat
    var sendWritePointer: nat
    var sendCount: nat
    var sendStopped: bool

    ghost function Repr(): set<object> {
      {this, sio, sendSemaphore, receiveSemaphore, receiveBuffer, sendBuffer}
    }

    ghost function ReceiveRing(): Ring<char>
      reads this`receiveReadPointer, this`receiveWritePointer, this`receiveCount, receiveBuffer
    {
      Ring(receiveBuffer[..], receiveReadPointer, receiveWritePointer, receiveCount)
    }

    ghost function SendRing(): Ring<char>
      reads this`sendReadPointer, this`sendWritePointer, this`sendCount, sendBuffer
    {
      Ring(sendBuffer[..], sendReadPointer, sendWritePointer, sendCount)
    }

    ghost function State(): Port
      reads Repr()
    {
      Port(openFlag, errorFlag, ioControl, ReceiveRing(), receiveFlowControl, receiveStopped,
           SendRing(), sendStopped, sendSemaphore.count, receiveSemaphore.count, sio.sendReady, sio.wire)
    }

    ghost predicate Valid()
      reads Repr()
    {
      sendSemaphore != receiveSemaphore && sendBuffer != receiveBuffer && InRange(State())
    }

    /** A port before its first opening, with both semaphores as configured. */
    constructor (receiveBufferSize: nat, sendBufferSize: nat)
      requires receiveBufferSize > 0 && sendBufferSize > 0
      ensures Valid() && fresh(Repr())
      ensures receiveBuffer.Length == receiveBufferSize && sendBuffer.Length == sendBufferSize
      ensures !openFlag && sendSemaphore.count == 1 && receiveSemaphore.count == 0 && State().wire == []
    {
      sio := new SioPort();
      sendSemaphore := new Semaphore(1);
      receiveSemaphore := new Semaphore(0);
      receiveBuffer := new char[receiveBufferSize];
      sendBuffer := new char[sendBufferSize];
      openFlag, errorFlag, ioControl := false, false, IoControl(false, false, false, false, false);
      receiveReadPointer, receiveWritePointer, receiveCount := 0, 0, 0;
      receiveFlowControl, receiveStopped := NUL, false;
      sendReadPointer, sendWritePointer, sendCount, sendStopped := 0, 0, 0, false;
    }

    method InitializeReceive()
      requires Valid()
      modifies this`receiveReadPointer, this`receiveWritePointer, this`receiveCount,
               this`receiveFlowControl, this`receiveStopped
      ensures Valid()
      ensures var p := old(State());
        State() == p.(receive := Ring(p.receive.buf, 0, 0, 0), receiveFlowControl := NUL, receiveStopped := false)
    {
      receiveReadPointer, receiveWritePointer, receiveCount := 0, 0, 0;
      receiveFlowControl, receiveStopped := NUL, false;
    }

    method InitializeSend()
      requires Valid()
      modifies this`sendReadPointer, this`sendWritePointer, this`sendCount, this`sendStopped
      ensures Valid()
      ensures var p := old(State());
        State() == p.(send := Ring(p.send.buf, 0, 0, 0), sendStopped := false)
    {
      sendReadPointer, sendWritePointer, sendCount, sendStopped := 0, 0, 0, false;
    }

    method Open() returns (e: Error)
      requires Valid()
      modifies this, sio
      ensures Valid()
      ensures e == if old(openFlag) then E_OBJ else E_OK
      ensures State() == if old(openFlag) then old(State()) else Opened(old(State()))
      ensures openFlag && (e == E_OK ==> !errorFlag)
      ensures e == E_OK ==> ioControl.echo && ioControl.crlf && ioControl.fcsnd && ioControl.fcrcv && !ioControl.fcany
    {
      if openFlag { return E_OBJ; }
      ioControl := IoControl(true, true, true, false, true);
      InitializeReceive();
      InitializeSend();
      sio.wire := [];
      openFlag, errorFlag := true, false;
      e := E_OK;
    }

    method Close() returns (e: Error)
      requires Valid()
      modifies this, sendSemaphore, receiveSemaphore
      ensures Valid()
      ensures e == if old(openFlag) then E_OK else E_OBJ
      ensures State() == if old(openFlag) then Closed(old(State())) else old(State())
      ensures !openFlag && (e == E_OK ==> sendSemaphore.count == 1 && receiveSemaphore.count == 0)
    {
      if !openFlag { return E_OBJ; }
      openFlag := false;
      sendSemaphore.count := 1;
      receiveSemaphore.count := 0;
      e := E_OK;
    }

    method Control(ioctl: IoControl) returns (e: Error)
      requires Valid()
      modifies this
      ensures Valid()
      ensures e == if !old(openFlag) then E_OBJ else if old(errorFlag) then E_SYS else E_OK
      ensures State() == if e == E_OK then old(State()).(io := ioctl) else old(State())
    {
      if !openFlag { return E_OBJ; }
      if errorFlag { return E_SYS; }
      ioControl := ioctl;
      e := E_OK;
    }

    method Refer() returns (e: Error, reacnt: nat, wricnt: nat)
      requires Valid()
      ensures e == if !openFlag then E_OBJ else if errorFlag then E_SYS else E_OK
      ensures e == E_OK ==> reacnt == State().receive.count && wricnt == State().send.count
    {
      reacnt, wricnt := receiveCount, sendCount;
      e := if !openFlag then E_OBJ else if errorFlag then E_SYS else E_OK;
    }

    /** serialPort_sendChar. */
    method SendCharacter(c: char, ghost x: Sent) returns (ok: bool)
      requires Valid() && x.c == c
      modifies sio
      ensures Valid() && (ok <==> old(sio.room) > 0)
      ensures State() == SendChar(old(State()), x, ok)
      ensures sio.room == if ok then old(sio.room) - 1 else old(sio.room)
    {
      ok := sio.PutChar(c, x);
      if !ok { sio.sendReady := true; }
    }

    method PutSend(c: char)
      requires Valid()
      modifies this`sendWritePointer, this`sendCount, sendBuffer
      ensures Valid()
      ensures State() == old(State()).(send := old(State().send).Put(c))
    {
      sendBuffer[sendWritePointer] := c;
      sendWritePointer := if sendWritePointer + 1 == sendBuffer.Length then 0 else sendWritePointer + 1;
      sendCount := sendCount + 1;
      assert SendRing() == old(SendRing()).Put(c);
      assert ReceiveRing() == old(ReceiveRing());
    }

    /** The locked region of serialPort_writeChar. */
    method WriteCharLocked(c: char) returns (bufferFull: bool)
      requires Valid()
      modifies Repr()
      ensures Valid()
      ensures State() == WriteRegion(old(State()), c, old(sio.room) > 0)
      ensures bufferFull == WriteFull(old(State()), c, old(sio.room) > 0)
    {
      var sent := false;
      if sendCount == 0 && !sendStopped {
        sent := SendCharacter(c, Data(c));
      }
      if sent {
        bufferFull := false;
      } else {
        PutSend(c);
        bufferFull := sendCount == sendBuffer.Length;
      }
    }

    /** Send START or STOP, or leave it for the send-ready callback. */
    method SendFlowControl(c: char)
      requires Valid()
      modifies this`receiveFlowControl, sio
      ensures Valid()
      ensures var q := SendChar(old(State()), Flow(c), old(sio.room) > 0);
        State() == q.(receiveFlowControl := if old(sio.room) > 0 then q.receiveFlowControl else c)
    {
      var sent := SendCharacter(c, Flow(c));
      if !sent { receiveFlowControl := c; }
    }

    /** START or STOP is sent, and remembered. */
    method ChangeFlow(c: char, stopped: bool)
      requires Valid()
      modifies this`receiveFlowControl, this`receiveStopped, sio
      ensures Valid() && receiveCount == old(receiveCount)
      ensures var q := SendChar(old(State()), Flow(c), old(sio.room) > 0);
        State() == q.(receiveFlowControl := if old(sio.room) > 0 then q.receiveFlowControl else c, receiveStopped := stopped)
    {
      SendFlowControl(c);
      receiveStopped := stopped;
    }

    method NextReceive()
      requires Valid()
      modifies this`receiveReadPointer
      ensures Valid()
      ensures var ring := old(ReceiveRing()); State() == old(State()).(receive := ring.(rp := ring.Inc(ring.rp)))
    {
      receiveReadPointer := if receiveReadPointer + 1 == receiveBuffer.Length then 0 else receiveReadPointer + 1;
    }

    method AdvanceReceive()
      requires Valid()
      modifies this`receiveReadPointer, this`receiveCount
      ensures Valid() && State() == old(State()).(receive := old(ReceiveRing()).Take())
    {
      NextReceive();
      receiveCount := if receiveCount == 0 then UINT_MAX else receiveCount - 1;
    }

    method TakeReceive() returns (c: char)
      requires Valid()
      modifies this`receiveReadPointer, this`receiveCount
      ensures Valid() && c == old(ReceiveRing()).Front()
      ensures State() == old(State()).(receive := old(ReceiveRing()).Take())
    {
      c := receiveBuffer[receiveReadPointer];
      AdvanceReceive();
    }

    /** The locked region of serialPort_readChar. */
    method ReadCharLocked() returns (c: char, bufferEmpty: bool)
      requires Valid()
      modifies this`receiveReadPointer, this`receiveCount, this`receiveFlowControl, this`receiveStopped, sio
      ensures Valid()
      ensures State() == ReadRegion(old(State()), old(sio.room) > 0)
      ensures c == old(State()).receive.Front() && (bufferEmpty <==> State().receive.count == 0)
    {
      c := TakeReceive();
      bufferEmpty := receiveCount == 0;
      if receiveStopped && receiveCount <= StartCount(receiveBuffer.Length) {
        ChangeFlow(FC_START, false);
      }
    }

    method NextSend()
      requires Valid()
      modifies this`sendReadPointer
      ensures Valid()
      ensures var ring := old(SendRing()); State() == old(State()).(send := ring.(rp := ring.Inc(ring.rp)))
    {
      sendReadPointer := if sendReadPointer + 1 == sendBuffer.Length then 0 else sendReadPointer + 1;
    }

    method AdvanceSend()
      requires Valid()
      modifies this`sendReadPointer, this`sendCount
      ensures Valid() && State() == old(State()).(send := old(SendRing()).Take())
    {
      NextSend();
      sendCount := if sendCount == 0 then UINT_MAX else sendCount - 1;
    }

    method SignalWriter()
      requires Valid()
      modifies this`errorFlag, sendSemaphore
      ensures Valid() && State() == SignalSend(old(State()))
    {
      var ok := sendSemaphore.Signal();
      if !ok { errorFlag := true; }
    }

    /** Drop the oldest character of the send ring, with the signal that frees a full ring. */
    method TakeSend()
      requires Valid()
      modifies this`sendReadPointer, this`sendCount, this`errorFlag, sendSemaphore
      ensures Valid()
      ensures State() == DropSend(old(State()))
    {
      if sendCount == sendBuffer.Length {
        SignalWriter();
      }
      AdvanceSend();
    }

    method SignalReader()
      requires Valid()
      modifies this`errorFlag, receiveSemaphore
      ensures Valid() && State() == SignalReceive(old(State()))
    {
      var ok := receiveSemaphore.Signal();
      if !ok { errorFlag := true; }
    }

    /** The pending flow-control character goes to the SIO port. */
    method SendPending()
      requires Valid()
      modifies this`receiveFlowControl, sio
      ensures Valid()
      ensures var p := old(State());
        State() == p.(receiveFlowControl := NUL,
                      wire := if old(sio.room) > 0 then p.wire + [Flow(p.receiveFlowControl)] else p.wire)
    {
      var _ := sio.PutChar(receiveFlowControl, Flow(receiveFlowControl));
      receiveFlowControl := NUL;
    }

    method OfferOldest()
      requires Valid()
      modifies sio
      ensures Valid()
      ensures var p := old(State());
        State() == p.(wire := if old(sio.room) > 0 then p.wire + [Data(p.send.Front())] else p.wire)
    {
      var c := sendBuffer[sendReadPointer];
      var _ := sio.PutChar(c, Data(c));
    }

    /** The oldest character of the send ring goes to the SIO port. */
    method SendOldest()
      requires Valid()
      modifies this`sendReadPointer, this`sendCount, this`errorFlag, sendSemaphore, sio
      ensures Valid()
      ensures var p := PopSend(old(State()));
        State() == p.(wire := if old(sio.room) > 0 then p.wire else old(State()).wire)
    {
      ghost var p := State();
      DropSendLeavesWire(p, p.wire + [Data(p.send.Front())]);
      OfferOldest();
      TakeSend();
    }

    /** eiSIOCBR_readySend. The SIO driver calls it when the register takes a character; if it
        did so otherwise, the character would be gone all the same. */
    method ReadySendCallback()
      requires Valid()
      modifies Repr()
      ensures Valid()
      ensures var p := ReadySend(old(State()));
        State() == if old(sio.room) > 0 then p else p.(wire := old(State()).wire)
    {
      if receiveFlowControl != NUL {
        SendPending();
      } else if !sendStopped && sendCount > 0 {
        SendOldest();
      } else {
        sio.sendReady := false;
      }
    }

    /** The loop of eiSIOCBR_readyReceive that resumes sending. */
    method ResumeLoop()
      requires Valid()
      modifies Repr()
      ensures Valid()
      ensures State() == Resume(old(State()), old(sio.room))
    {
      var blocked := false;
      while sendCount > 0 && !blocked
        invariant Valid()
        invariant if blocked then State() == Resume(old(State()), old(sio.room))
                  else Resume(State(), sio.room) == Resume(old(State()), old(sio.room))
        decreases !blocked, sio.room
      {
        var c := sendBuffer[sendReadPointer];
        var sent := SendCharacter(c, Data(c));
        if sent {
          TakeSend();
        } else {
          blocked := true;
        }
      }
    }

    method AppendReceive(c: char)
      requires Valid()
      modifies this`receiveWritePointer, this`receiveCount, receiveBuffer
      ensures Valid() && receiveCount == old(receiveCount) + 1
      ensures State() == old(State()).(receive := old(ReceiveRing()).Put(c))
    {
      receiveBuffer[receiveWritePointer] := c;
      receiveWritePointer := if receiveWritePointer + 1 == receiveBuffer.Length then 0 else receiveWritePointer + 1;
      receiveCount := receiveCount + 1;
      assert ReceiveRing() == old(ReceiveRing()).Put(c);
      assert SendRing() == old(SendRing());
    }

    method PutReceive(c: char)
      requires Valid()
      modifies this`receiveWritePointer, this`receiveCount, this`errorFlag, receiveBuffer, receiveSemaphore
      ensures Valid() && receiveCount == old(receiveCount) + 1
      ensures var p := old(State());
        State() == (if p.receive.count == 0 then SignalReceive(p) else p).(receive := p.receive.Put(c))
    {
      if receiveCount == 0 {
        SignalReader();
      }
      AppendReceive(c);
    }

    /** The branch of eiSIOCBR_readyReceive that stores the character. */
    method StoreCharacter(c: char)
      requires Valid()
      modifies Repr()
      ensures Valid()
      ensures State() == StoreReceived(old(State()), c, old(sio.room) > 0)
    {
      PutReceive(c);
      if ioControl.fcrcv && !receiveStopped && receiveCount >= StopCount(receiveBuffer.Length) {
        ChangeFlow(FC_STOP, true);
      }
    }

    /** eiSIOCBR_readyReceive, with the character it read from the SIO port. */
    method ReadyReceiveCallback(received: char)
      requires Valid()
      modifies Repr()
      ensures Valid()
      ensures State() == ReadyReceive(old(State()), received, old(sio.room))
    {
      if ioControl.fcsnd && received == FC_STOP {
        sendStopped := true;
      } else if sendStopped && (received == FC_START || ioControl.fcany) {
        sendStopped := false;
        ResumeLoop();
      } else if ioControl.fcsnd && received == FC_START {
      } else if receiveCount == receiveBuffer.Length {
      } else {
        StoreCharacter(received);
      }
    }

    /** enSerialPortManage_getChar. */
    method DrainCharacter() returns (got: bool, c: char)
      requires Valid()
      modifies this
      ensures Valid()
      ensures State() == Drain(old(State()))
      ensures got <==> old(openFlag) && old(sendCount) > 0
      ensures got ==> c == old(State()).send.Front()
    {
      got, c := openFlag && sendCount > 0, NUL;
      if got {
        c := sendBuffer[sendReadPointer];
        sendReadPointer := if sendReadPointer + 1 == sendBuffer.Length then 0 else sendReadPointer + 1;
        sendCount := sendCount - 1;
      }
    }
  }
}
