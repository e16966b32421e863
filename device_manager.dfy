/**
 * The login and stream-context state of one camera (DeviceManager). The
 * device-context calls into the vendor SDK are not modelled: each call the
 * manager makes is appended to the `calls` log, and what the call returns
 * (a handle, success, or an exception) is a parameter of the operation.
 */
module NetSdk {
  import opened Wrappers

  /** The value of the login handle while no device is logged in. */
  const LOGGED_OUT: int := -1

  /** The stream state of one channel: its real-play handle and whether it is being recorded. */
  datatype StreamContext = StreamContext(playHandle: nat, isSaving: bool)

  /** The device-context calls, in the order the manager makes them. */
  datatype SdkCall =
    | Login
    | Logout(userId: int)
    | CheckUser(userId: int)
    | Capture(userId: int, channel: int)
    | CaptureWithAppendData(userId: int, channel: int)
    | RealPlay(userId: int, channel: int)
    | StopRealPlay(playHandle: nat)
    | StartSave(playHandle: nat)
    | StopSave(playHandle: nat)

  /**
   * How an operation ends: normally, with the IllegalStateException it
   * throws itself (not logged in, channel without stream), or with the
   * RuntimeException of a failed SDK call that it lets escape.
   */
  datatype Outcome = Done | NotLoggedIn | NoStream | SdkFailed

  class DeviceManager {
    /** The login handle, LOGGED_OUT when not logged in. */
    var userId: int
    /** Channel number to stream context. */
    var streams: map<int, StreamContext>
    /** Every device-context call made, in order. */
    var calls: seq<SdkCall>

    /** Handles are non-negative, and no stream context outlives the login. */
    ghost predicate Valid()
      reads this
    {
      userId >= LOGGED_OUT && (userId == LOGGED_OUT ==> streams == map[])
    }

    constructor ()
      ensures Valid()
      ensures userId == LOGGED_OUT && streams == map[] && calls == []
    {
      userId := LOGGED_OUT;
      streams := map[];
      calls := [];
    }

    /**
     * Logs in unless already logged in. A failed login (the SDK answers -1
     * and the device context throws) leaves the manager logged out.
     */
    method LoginDevice(handle: Option<nat>) returns (r: Outcome)
      requires Valid()
      modifies this`userId, this`calls
      ensures Valid()
      ensures old(userId) != LOGGED_OUT ==> r == Done && userId == old(userId) && calls == old(calls)
      ensures old(userId) == LOGGED_OUT ==>
                calls == old(calls) + [Login]
                && (handle.Some? ==> r == Done && userId == handle.value)
                && (handle.None? ==> r == SdkFailed && userId == LOGGED_OUT)
    {
      if userId != LOGGED_OUT {
        return Done;
      }
      calls := calls + [Login];
      if handle.None? {
        return SdkFailed;
      }
      userId := handle.value;
      r := Done;
    }

    /**
     * Logs out: stops the recording of every saving channel and the real
     * play of every channel, then logs out. Every failure of those calls is
     * caught, so the manager always ends logged out with no stream context.
     */
    method LogoutDevice()
      requires Valid()
      modifies this`userId, this`streams, this`calls
      ensures Valid()
      ensures userId == LOGGED_OUT && streams == map[]
      ensures old(userId) == LOGGED_OUT ==> calls == old(calls)
      ensures old(userId) != LOGGED_OUT ==>
                |calls| > |old(calls)|
                && calls[..|old(calls)|] == old(calls)
                && calls[|calls| - 1] == Logout(old(userId))
      ensures old(userId) != LOGGED_OUT ==>
                (set c | c in calls[|old(calls)|..]) == Stops(old(streams)) + {Logout(old(userId))}
    {
      if userId == LOGGED_OUT {
        return;
      }
      var pending := streams.Keys;
      ghost var stopped: seq<SdkCall> := [];
      while pending != {}
        invariant streams == old(streams) && userId == old(userId)
        invariant pending <= streams.Keys
        invariant calls == old(calls) + stopped
        invariant forall ch :: ch in streams && ch !in pending ==>
                    StopRealPlay(streams[ch].playHandle) in stopped
        invariant forall ch :: ch in streams && ch !in pending && streams[ch].isSaving ==>
                    StopSave(streams[ch].playHandle) in stopped
        invariant forall c :: c in stopped ==> c in Stops(streams)
        decreases pending
      {
        HasMember(pending);
        var ch :| ch in pending;
        var context := streams[ch];
        if context.isSaving {
          calls := calls + [StopSave(context.playHandle)];
          stopped := stopped + [StopSave(context.playHandle)];
        }
        calls := calls + [StopRealPlay(context.playHandle)];
        stopped := stopped + [StopRealPlay(context.playHandle)];
        pending := pending - {ch};
      }
      calls := calls + [Logout(userId)];
      assert calls == old(calls) + (stopped + [Logout(old(userId))]);
      assert calls[|old(calls)|..] == stopped + [Logout(old(userId))];
      userId := LOGGED_OUT;
      streams := map[];
    }

    /** Asks the SDK whether the login is still valid; logged out, the answer is no and nothing is asked. */
    method CheckUserID(sdkValid: bool) returns (valid: bool)
      requires Valid()
      modifies this`calls
      ensures userId == LOGGED_OUT ==> !valid && calls == old(calls)
      ensures userId != LOGGED_OUT ==> valid == sdkValid && calls == old(calls) + [CheckUser(userId)]
    {
      if userId == LOGGED_OUT {
        return false;
      }
      calls := calls + [CheckUser(userId)];
      valid := sdkValid;
    }

    /** Takes a JPEG snapshot of a channel; refused when not logged in, the SDK's failure escapes. */
    method CaptureJPEGPicture(channel: int, sdkOk: bool) returns (r: Outcome)
      requires Valid()
      modifies this`calls
      ensures userId == LOGGED_OUT ==> r == NotLoggedIn && calls == old(calls)
      ensures userId != LOGGED_OUT ==>
                calls == old(calls) + [Capture(userId, channel)] && r == (if sdkOk then Done else SdkFailed)
    {
      if userId == LOGGED_OUT {
        return NotLoggedIn;
      }
      calls := calls + [Capture(userId, channel)];
      r := if sdkOk then Done else SdkFailed;
    }

    /**
     * The thermal snapshot. It does not check the login and passes the
     * handle as it is, LOGGED_OUT included; its SDK failure is only logged.
     */
    method CaptureJPEGPictureWithAppendData(channel: int)
      modifies this`calls
      ensures calls == old(calls) + [CaptureWithAppendData(userId, channel)]
    {
      calls := calls + [CaptureWithAppendData(userId, channel)];
    }

    /**
     * Opens the real-time stream of a channel: refused when not logged in,
     * a no-op when the channel already has a context, otherwise one new
     * context with the handle the SDK returns, not saving.
     */
    method GetRealStreamData(channel: int, handle: Option<nat>) returns (r: Outcome)
      requires Valid()
      modifies this`streams, this`calls
      ensures Valid()
      ensures userId == LOGGED_OUT ==> r == NotLoggedIn && streams == old(streams) && calls == old(calls)
      ensures userId != LOGGED_OUT && channel in old(streams) ==>
                r == Done && streams == old(streams) && calls == old(calls)
      ensures userId != LOGGED_OUT && channel !in old(streams) ==>
                calls == old(calls) + [RealPlay(userId, channel)]
                && (handle.Some? ==> r == Done && streams == old(streams)[channel := StreamContext(handle.value, false)])
                && (handle.None? ==> r == SdkFailed && streams == old(streams))
    {
      if userId == LOGGED_OUT {
        return NotLoggedIn;
      }
      if channel in streams {
        return Done;
      }
      calls := calls + [RealPlay(userId, channel)];
      if handle.None? {
        return SdkFailed;
      }
      streams := streams[channel := StreamContext(handle.value, false)];
      r := Done;
    }

    /**
     * Closes the stream of a channel, stopping its recording first. A
     * failure of either SDK call escapes and leaves the context in place.
     */
    method StopRealStreamData(channel: int, stopSaveOk: bool, stopPlayOk: bool) returns (r: Outcome)
      requires Valid()
      modifies this`streams, this`calls
      ensures Valid()
      ensures channel !in old(streams) ==> r == Done && streams == old(streams) && calls == old(calls)
      ensures channel in old(streams) ==>
                var context := old(streams)[channel];
                calls == old(calls) + StopCalls(context, stopSaveOk)
                && (r == Done <==> (stopSaveOk || !context.isSaving) && stopPlayOk)
                && (r != Done ==> r == SdkFailed && streams == old(streams))
                && (r == Done ==> streams == old(streams) - {channel})
    {
      if channel !in streams {
        return Done;
      }
      var context := streams[channel];
      if context.isSaving {
        calls := calls + [StopSave(context.playHandle)];
        if !stopSaveOk {
          return SdkFailed;
        }
      }
      calls := calls + [StopRealPlay(context.playHandle)];
      if !stopPlayOk {
        return SdkFailed;
      }
      streams := streams - {channel};
      r := Done;
    }

    /**
     * Starts recording a channel's stream: refused when the channel has no
     * context, a no-op when already recording; a failed SDK call escapes.
     */
    method StartSaveRealData(channel: int, sdkOk: bool) returns (r: Outcome)
      requires Valid()
      modifies this`streams, this`calls
      ensures Valid()
      ensures channel !in old(streams) ==> r == NoStream && streams == old(streams) && calls == old(calls)
      ensures channel in old(streams) && old(streams)[channel].isSaving ==>
                r == Done && streams == old(streams) && calls == old(calls)
      ensures channel in old(streams) && !old(streams)[channel].isSaving ==>
                calls == old(calls) + [StartSave(old(streams)[channel].playHandle)]
                && (sdkOk ==> r == Done && streams == old(streams)[channel := old(streams)[channel].(isSaving := true)])
                && (!sdkOk ==> r == SdkFailed && streams == old(streams))
    {
      if channel !in streams {
        return NoStream;
      }
      var context := streams[channel];
      if context.isSaving {
        return Done;
      }
      calls := calls + [StartSave(context.playHandle)];
      if !sdkOk {
        return SdkFailed;
      }
      streams := streams[channel := context.(isSaving := true)];
      r := Done;
    }

    /** Stops recording a channel's stream; nothing happens unless it is being recorded. */
    method StopSaveRealData(channel: int, sdkOk: bool) returns (r: Outcome)
      requires Valid()
      modifies this`streams, this`calls
      ensures Valid()
      ensures !(channel in old(streams) && old(streams)[channel].isSaving) ==>
                r == Done && streams == old(streams) && calls == old(calls)
      ensures channel in old(streams) && old(streams)[channel].isSaving ==>
                calls == old(calls) + [StopSave(old(streams)[channel].playHandle)]
                && (sdkOk ==> r == Done && streams == old(streams)[channel := old(streams)[channel].(isSaving := false)])
                && (!sdkOk ==> r == SdkFailed && streams == old(streams))
    {
      if channel !in streams || !streams[channel].isSaving {
        return Done;
      }
      var context := streams[channel];
      calls := calls + [StopSave(context.playHandle)];
      if !sdkOk {
        return SdkFailed;
      }
      streams := streams[channel := context.(isSaving := false)];
      r := Done;
    }
  }

  /** A non-empty set of channels has a member to pick. */
  lemma HasMember(s: set<int>)
    requires s != {}
    ensures exists x :: x in s
  {
    if forall x :: x !in s {
      assert false;
    }
  }

  /** The stop calls due for the given streams: the real play of each, the recording of each saving one. */
  function Stops(streams: map<int, StreamContext>): set<SdkCall> {
    (set ch | ch in streams :: StopRealPlay(streams[ch].playHandle))
    + (set ch | ch in streams && streams[ch].isSaving :: StopSave(streams[ch].playHandle))
  }

  /** The calls closing one stream makes: the recording stop first when saving, then the real-play stop unless that failed. */
  function StopCalls(context: StreamContext, stopSaveOk: bool): (cs: seq<SdkCall>)
    ensures context.isSaving <==> StopSave(context.playHandle) in cs
    ensures StopRealPlay(context.playHandle) in cs <==> (stopSaveOk || !context.isSaving)
    ensures |cs| <= 2
  {
    if context.isSaving && !stopSaveOk then [StopSave(context.playHandle)]
    else if context.isSaving then [StopSave(context.playHandle), StopRealPlay(context.playHandle)]
    else [StopRealPlay(context.playHandle)]
  }
}
