/** `RedisChannelHandler`: the life cycle of one connection. Two independent
    flags (`active`, `closed`), the command timeout, the writer it forwards
    commands to, and a one-shot list of close listeners. The only listeners
    modelled are the ones `registerCloseables` adds; a `java.io.Closeable` is
    known by an identity number, the handler included. */
module Redis {
  import opened Wrappers
  import opened JavaText

  datatype TimeUnit = Nanoseconds | Microseconds | Milliseconds | Seconds | Minutes | Hours | Days

  /** The identity of a `java.io.Closeable`. */
  type CloseableId = nat

  /** The `RedisChannelWriter` a handler owns, as a record of what it was
      asked to do: its owner, the commands written, and how often it was
      closed, reset and flushed. */
  class RedisChannelWriter<C> {
    ghost var handler: RedisChannelHandler?<C>
    ghost var written: seq<C>
    ghost var closeCount: nat
    ghost var resetCount: nat
    ghost var flushCount: nat
    ghost var autoFlush: Option<bool>

    constructor ()
      ensures handler == null && written == [] && closeCount == 0
      ensures resetCount == 0 && flushCount == 0 && autoFlush == None
    {
      handler := null;
      written := [];
      closeCount, resetCount, flushCount := 0, 0, 0;
      autoFlush := None;
    }

    /** `setRedisChannelHandler(handler)` */
    method SetRedisChannelHandler(h: RedisChannelHandler<C>)
      modifies this`handler
      ensures handler == h
    {
      handler := h;
    }

    /** `write(command)`: queues the command and hands the same command back. */
    method Write(command: C) returns (r: C)
      modifies this`written
      ensures written == old(written) + [command] && r == command
    {
      written := written + [command];
      r := command;
    }

    /** `close()` */
    method Close()
      modifies this`closeCount
      ensures closeCount == old(closeCount) + 1
    {
      closeCount := closeCount + 1;
    }

    /** `reset()` */
    method Reset()
      modifies this`resetCount
      ensures resetCount == old(resetCount) + 1
    {
      resetCount := resetCount + 1;
    }

    /** `setAutoFlushCommands(autoFlush)` */
    method SetAutoFlushCommands(flush: bool)
      modifies this`autoFlush
      ensures autoFlush == Some(flush)
    {
      autoFlush := Some(flush);
    }

    /** `flushCommands()` */
    method FlushCommands()
      modifies this`flushCount
      ensures flushCount == old(flushCount) + 1
    {
      flushCount := flushCount + 1;
    }
  }

  /** A `Collection<Closeable>` that tracks open resources, by membership. */
  class Registry {
    var members: set<CloseableId>

    constructor ()
      ensures members == {}
    {
      members := {};
    }

    /** `addAll(Arrays.asList(closeables))` */
    method AddAll(cs: seq<CloseableId>)
      modifies this
      ensures members == old(members) + Elements(cs)
    {
      members := members + Elements(cs);
    }

    /** `removeAll(Arrays.asList(closeables))` */
    method RemoveAll(cs: seq<CloseableId>)
      modifies this
      ensures members == old(members) - Elements(cs)
    {
      members := members - Elements(cs);
    }
  }

  function Elements(cs: seq<CloseableId>): set<CloseableId> {
    set c | c in cs
  }

  /** The closeables a handler's listeners close: which ones throw
      `IOException` from `close()`, and every `close()` call made on them, in
      order. */
  class Closeables {
    const throwing: set<CloseableId>
    var closeCalls: seq<CloseableId>

    constructor (throwing: set<CloseableId>)
      ensures this.throwing == throwing && closeCalls == []
    {
      this.throwing := throwing;
      closeCalls := [];
    }

    /** `closeable.close()`; `threw` says whether it threw `IOException`. */
    method Close(c: CloseableId) returns (threw: bool)
      modifies this
      ensures closeCalls == old(closeCalls) + [c] && threw == (c in throwing)
    {
      closeCalls := closeCalls + [c];
      threw := c in throwing;
    }
  }

  /** The close listener `registerCloseables` adds: on close it closes the
      given closeables and removes them from the registry. */
  datatype CloseListener = CloseablesListener(registry: Registry, closeables: seq<CloseableId>)

  /** The closeables a listener closes: all but the handler itself, in order. */
  function Without(cs: seq<CloseableId>, self: CloseableId): seq<CloseableId> {
    if cs == [] then []
    else
      var last := cs[|cs| - 1];
      Without(cs[..|cs| - 1], self) + (if last == self then [] else [last])
  }

  /** The closeables a run of listeners closes, listener after listener. */
  function CloseTargets(listeners: seq<CloseListener>, self: CloseableId): seq<CloseableId> {
    if listeners == [] then []
    else
      CloseTargets(listeners[..|listeners| - 1], self) + Without(listeners[|listeners| - 1].closeables, self)
  }

  /** The registries a run of listeners releases from. */
  ghost function RegistriesOf(listeners: seq<CloseListener>): set<Registry> {
    set l | l in listeners :: l.registry
  }

  /** What a run of listeners removes from one registry. */
  function Released(listeners: seq<CloseListener>, r: Registry): set<CloseableId> {
    if listeners == [] then {}
    else
      var last := listeners[|listeners| - 1];
      Released(listeners[..|listeners| - 1], r) + (if last.registry == r then Elements(last.closeables) else {})
  }

  /** Firing one more listener: its closeables follow the earlier ones, and
      it releases from its own registry only. */
  lemma FiringStep(listeners: seq<CloseListener>, i: nat, self: CloseableId)
    requires i < |listeners|
    ensures CloseTargets(listeners[..i + 1], self) == CloseTargets(listeners[..i], self) + Without(listeners[i].closeables, self)
    ensures forall r ::
      Released(listeners[..i + 1], r) ==
      Released(listeners[..i], r) + (if listeners[i].registry == r then Elements(listeners[i].closeables) else {})
    ensures listeners[i].registry in RegistriesOf(listeners)
  {
    assert listeners[..i + 1][..i] == listeners[..i];
  }

  /** Removing two sets in turn removes their union. */
  lemma DiffTwice<T>(a: set<T>, b: set<T>, c: set<T>)
    ensures a - b - c == a - (b + c)
  {
  }

  /** Concatenation regroups. */
  lemma SeqAssoc<T>(a: seq<T>, b: seq<T>, c: seq<T>)
    ensures a + b + c == a + (b + c)
  {
  }

  /** A listener closes each closeable other than the handler as often as it
      is listed (once, for a list without repeats) and never the handler. */
  lemma {:induction false} WithoutCounts(cs: seq<CloseableId>, self: CloseableId, c: CloseableId)
    ensures multiset(Without(cs, self))[c] == if c == self then 0 else multiset(cs)[c]
  {
    if cs != [] {
      var init, last := cs[..|cs| - 1], cs[|cs| - 1];
      WithoutCounts(init, self, c);
      assert cs == init + [last];
      assert multiset(cs) == multiset(init) + multiset{last};
      assert multiset(Without(cs, self)) ==
        multiset(Without(init, self)) + if last == self then multiset{} else multiset{last};
    }
  }

  /** Firing a run of listeners closes a closeable exactly when one of them
      lists it and it is not the handler: the handler never closes itself
      through its own listeners. */
  lemma {:induction false} CloseTargetsIff(listeners: seq<CloseListener>, self: CloseableId, c: CloseableId)
    ensures c in CloseTargets(listeners, self) <==>
      c != self && exists i :: 0 <= i < |listeners| && c in listeners[i].closeables
  {
    if listeners != [] {
      var init, last := listeners[..|listeners| - 1], listeners[|listeners| - 1];
      CloseTargetsIff(init, self, c);
      WithoutCounts(last.closeables, self, c);
      assert forall i :: 0 <= i < |init| ==> init[i] == listeners[i];
      if c in CloseTargets(listeners, self) && c !in CloseTargets(init, self) {
        assert c in Without(last.closeables, self);
        assert c in last.closeables;
      }
      if c != self && c !in CloseTargets(init, self) && c in last.closeables {
        assert c in Without(last.closeables, self);
      }
    }
  }

  /** A closeable leaves a registry exactly when some listener over that
      registry lists it. */
  lemma {:induction false} ReleasedIff(listeners: seq<CloseListener>, r: Registry, c: CloseableId)
    ensures c in Released(listeners, r) <==>
      exists i :: 0 <= i < |listeners| && listeners[i].registry == r && c in listeners[i].closeables
  {
    if listeners != [] {
      var init := listeners[..|listeners| - 1];
      ReleasedIff(init, r, c);
      assert forall i :: 0 <= i < |init| ==> init[i] == listeners[i];
      if c in Released(listeners, r) && c !in Released(init, r) {
        assert listeners[|listeners| - 1].registry == r && c in listeners[|listeners| - 1].closeables;
      }
    }
  }

  class RedisChannelHandler<C> {
    const channelWriter: RedisChannelWriter<C>
    /** This handler, as a `Closeable`. */
    const id: CloseableId
    /** The closeables its listeners close. */
    const closeables: Closeables
    var timeout: Long
    var unit: TimeUnit
    var closeEvents: seq<CloseListener>
    var closed: bool
    var active: bool
    /** Every listener the close event was delivered to, in order. */
    ghost var fired: seq<CloseListener>

    /** The two flags are independent, but no operation leaves the handler
        both active and closed. */
    ghost predicate Valid()
      reads this
    {
      active ==> !closed
    }

    /** The registries the pending listeners would release from. */
    ghost function Registries(): set<Registry>
      reads this
    {
      RegistriesOf(closeEvents)
    }

    /** The constructor: open, not closed, with the given timeout, and
        registered with its writer as the writer's handler. */
    constructor (writer: RedisChannelWriter<C>, timeout: Long, unit: TimeUnit, id: CloseableId, closeables: Closeables)
      modifies writer`handler
      ensures channelWriter == writer && this.id == id && this.closeables == closeables
      ensures Valid() && IsOpen() && !IsClosed()
      ensures GetTimeout() == timeout && GetTimeoutUnit() == unit
      ensures writer.handler == this
      ensures closeEvents == [] && fired == []
    {
      channelWriter := writer;
      this.id := id;
      this.closeables := closeables;
      this.timeout := timeout;
      this.unit := unit;
      closeEvents := [];
      closed := false;
      active := true;
      fired := [];
      new;
      writer.SetRedisChannelHandler(this);
      SetTimeout(timeout, unit);
    }

    /** `channelRegistered`: clears `closed`, leaves `active`. */
    method ChannelRegistered()
      modifies this`closed
      ensures Valid() && !closed
    {
      closed := false;
    }

    /** `setTimeout` */
    method SetTimeout(timeout: Long, unit: TimeUnit)
      modifies this`timeout, this`unit
      ensures GetTimeout() == timeout && GetTimeoutUnit() == unit
    {
      this.timeout := timeout;
      this.unit := unit;
    }

    /** `getTimeout` */
    function GetTimeout(): Long
      reads this
    {
      timeout
    }

    /** `getTimeoutUnit` */
    function GetTimeoutUnit(): TimeUnit
      reads this
    {
      unit
    }

    /** `isOpen`: the `active` flag. */
    function IsOpen(): bool
      reads this
    {
      active
    }

    /** `isClosed`: the `closed` flag, which is not the negation of `active`. */
    function IsClosed(): bool
      reads this
    {
      closed
    }

    /** `isOpen` promises an active connection that is not closed. */
    lemma OpenIsNotClosed()
      requires Valid()
      ensures IsOpen() ==> !IsClosed()
    {
    }

    /** `activated`: the connection is (again) active and not closed. */
    method Activated()
      modifies this`active, this`closed
      ensures Valid() && IsOpen() && !IsClosed()
    {
      active := true;
      closed := false;
    }

    /** `deactivated`: clears `active`, leaves `closed`. */
    method Deactivated()
      modifies this`active
      ensures Valid() && !IsOpen()
    {
      active := false;
    }

    /** `dispatch(cmd)`: the writer's `write`. */
    method Dispatch(command: C) returns (r: C)
      modifies channelWriter`written
      ensures channelWriter.written == old(channelWriter.written) + [command]
      ensures r == command
    {
      r := channelWriter.Write(command);
    }

    /** `reset()`, passed to the writer. */
    method Reset()
      modifies channelWriter`resetCount
      ensures channelWriter.resetCount == old(channelWriter.resetCount) + 1
    {
      channelWriter.Reset();
    }

    /** `setAutoFlushCommands`, passed to the writer. */
    method SetAutoFlushCommands(autoFlush: bool)
      modifies channelWriter`autoFlush
      ensures channelWriter.autoFlush == Some(autoFlush)
    {
      channelWriter.SetAutoFlushCommands(autoFlush);
    }

    /** `flushCommands()`, passed to the writer. */
    method FlushCommands()
      modifies channelWriter`flushCount
      ensures channelWriter.flushCount == old(channelWriter.flushCount) + 1
    {
      channelWriter.FlushCommands();
    }

    /** `addListener`: to the current, not yet fired, list. */
    method AddListener(listener: CloseListener)
      modifies this`closeEvents
      ensures closeEvents == old(closeEvents) + [listener]
    {
      closeEvents := closeEvents + [listener];
    }

    /** `registerCloseables(registry, closeables...)`: tracks the closeables
        in the registry, and adds the listener that closes and untracks them
        on close. */
    method RegisterCloseables(registry: Registry, cs: seq<CloseableId>)
      modifies registry, this`closeEvents
      ensures registry.members == old(registry.members) + Elements(cs)
      ensures closeEvents == old(closeEvents) + [CloseablesListener(registry, cs)]
    {
      registry.AddAll(cs);
      AddListener(CloseablesListener(registry, cs));
    }

    /** The body of the listener `registerCloseables` adds: closes every
        listed closeable but this handler, in order, going on past any that
        throws `IOException`, then removes them all from the registry. */
    method FireListener(listener: CloseListener)
      modifies closeables, listener.registry
      ensures closeables.closeCalls == old(closeables.closeCalls) + Without(listener.closeables, id)
      ensures listener.registry.members == old(listener.registry.members) - Elements(listener.closeables)
    {
      var cs := listener.closeables;
      var i := 0;
      while i < |cs|
        invariant 0 <= i <= |cs|
        invariant closeables.closeCalls == old(closeables.closeCalls) + Without(cs[..i], id)
        invariant listener.registry.members == old(listener.registry.members)
      {
        if cs[i] != id {
          var threw := closeables.Close(cs[i]);
          // an IOException is caught (and logged at debug level): go on
        }
        assert cs[..i + 1][..i] == cs[..i];
        i := i + 1;
      }
      assert cs[..i] == cs;
      listener.registry.RemoveAll(cs);
    }

    /** `CloseEvents.fireEventClosed(this)`: every listener of the run
        fires, in order. */
    method FireEventClosed(listeners: seq<CloseListener>)
      modifies this`fired, closeables, RegistriesOf(listeners)
      ensures fired == old(fired) + listeners
      ensures closeables.closeCalls == old(closeables.closeCalls) + CloseTargets(listeners, id)
      ensures forall r :: r in RegistriesOf(listeners) ==> r.members == old(r.members) - Released(listeners, r)
    {
      var i := 0;
      while i < |listeners|
        invariant 0 <= i <= |listeners|
        invariant fired == old(fired) + listeners[..i]
        invariant closeables.closeCalls == old(closeables.closeCalls) + CloseTargets(listeners[..i], id)
        invariant forall r :: r in RegistriesOf(listeners) ==> r.members == old(r.members) - Released(listeners[..i], r)
      {
        var listener := listeners[i];
        FiringStep(listeners, i, id);
        label before:
        FireListener(listener);
        fired := fired + [listener];
        assert listeners[..i + 1] == listeners[..i] + [listener];
        SeqAssoc(old(fired), listeners[..i], [listener]);
        SeqAssoc(old(closeables.closeCalls), CloseTargets(listeners[..i], id), Without(listener.closeables, id));
        forall r | r in RegistriesOf(listeners)
          ensures r.members == old(r.members) - Released(listeners[..i + 1], r)
        {
          var released := if listener.registry == r then Elements(listener.closeables) else {};
          assert r.members == old@before(r.members) - released;
          DiffTwice(old(r.members), Released(listeners[..i], r), released);
        }
        i := i + 1;
      }
      assert listeners[..i] == listeners;
    }

    /** `close()`. The first call clears `active`, sets `closed`, closes the
        writer once, fires every pending listener once, in registration order,
        and empties the list. A call on a closed handler changes nothing. */
    method Close()
      modifies this, channelWriter`closeCount, closeables, Registries()
      ensures old(Valid()) ==> Valid()
      ensures old(closed) ==> unchanged(this) && channelWriter.closeCount == old(channelWriter.closeCount)
      ensures old(closed) ==> unchanged(closeables)
      ensures old(closed) ==> forall r :: r in old(Registries()) ==> r.members == old(r.members)
      ensures !old(closed) ==> !IsOpen() && IsClosed() && closeEvents == []
      ensures !old(closed) ==> channelWriter.closeCount == old(channelWriter.closeCount) + 1
      ensures !old(closed) ==> fired == old(fired) + old(closeEvents)
      ensures !old(closed) ==> closeables.closeCalls == old(closeables.closeCalls) + CloseTargets(old(closeEvents), id)
      ensures !old(closed) ==>
        forall r :: r in old(Registries()) ==> r.members == old(r.members) - Released(old(closeEvents), r)
      ensures timeout == old(timeout) && unit == old(unit)
    {
      if closed {
        // "Connection is already closed" is logged
        return;
      }
      active := false;
      closed := true;
      channelWriter.Close();
      FireEventClosed(closeEvents);
      closeEvents := [];
    }
  }

  /** Closing twice has the effect of closing once: the writer is closed
      once, every listener fires once, each registry is released from once,
      and no listener is left pending. */
  method CloseTwice<C>(h: RedisChannelHandler<C>)
    requires !h.IsClosed()
    modifies h, h.channelWriter`closeCount, h.closeables, h.Registries()
    ensures h.IsClosed() && !h.IsOpen()
    ensures h.channelWriter.closeCount == old(h.channelWriter.closeCount) + 1
    ensures h.fired == old(h.fired) + old(h.closeEvents)
    ensures h.closeables.closeCalls == old(h.closeables.closeCalls) + CloseTargets(old(h.closeEvents), h.id)
    ensures h.closeEvents == []
    ensures h.timeout == old(h.timeout) && h.unit == old(h.unit)
    ensures forall r :: r in old(h.Registries()) ==> r.members == old(r.members) - Released(old(h.closeEvents), r)
  {
    h.Close();
    h.Close();
  }
}
