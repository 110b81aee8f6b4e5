/**
 * The Aside context: one drawer (search, cart or mobile menu) open at a
 * time, or none. `AsideProvider` owns the state; `AsideHandle` is what
 * `useAside` hands to components, with a do-nothing fallback when no
 * provider is mounted.
 */
module Aside {
  datatype AsideType = Search | Cart | Mobile | Closed

  /** The provider's state: which drawer is open, `Closed` for none. */
  class AsideProvider {
    var kind: AsideType

    /** A freshly mounted provider starts closed. */
    constructor()
      ensures kind == Closed
      ensures !IsOpen()
    {
      kind := Closed;
    }

    predicate IsOpen()
      reads this
    {
      kind != Closed
    }

    /** `open(mode)`: the drawer becomes `mode`, whatever was open before. */
    method Open(mode: AsideType)
      modifies this
      ensures kind == mode
      ensures IsOpen() <==> mode != Closed
    {
      kind := mode;
    }

    method Close()
      modifies this
      ensures kind == Closed
      ensures !IsOpen()
    {
      kind := Closed;
    }
  }

  /** A call made on the context, for reasoning about sequences of calls. */
  datatype AsideCall = OpenCall(mode: AsideType) | CloseCall

  /** The state a call leaves behind: it does not depend on the state before it. */
  function After(call: AsideCall): (k: AsideType)
    ensures call.CloseCall? ==> k == Closed
    ensures call.OpenCall? ==> k == call.mode
  {
    match call
    case OpenCall(mode) => mode
    case CloseCall => Closed
  }

  /** The state after a sequence of calls, starting from `start`. */
  function Replay(start: AsideType, calls: seq<AsideCall>): AsideType
    decreases |calls|
  {
    if |calls| == 0 then start else Replay(After(calls[0]), calls[1..])
  }

  /** Only the last call matters: no drawer stacks on another. */
  lemma {:induction false} LastCallWins(start: AsideType, calls: seq<AsideCall>)
    requires |calls| > 0
    ensures Replay(start, calls) == After(calls[|calls| - 1])
    decreases |calls|
  {
    if |calls| > 1 {
      LastCallWins(After(calls[0]), calls[1..]);
    }
  }

  /**
   * What `useAside` returns: the mounted provider, or, when there is none
   * (`provider == null`), a fallback that is always closed and ignores calls.
   */
  class AsideHandle {
    const provider: AsideProvider?

    constructor(provider: AsideProvider?)
      ensures this.provider == provider
    {
      this.provider := provider;
    }

    function Kind(): (k: AsideType)
      reads this, provider
      ensures provider == null ==> k == Closed
      ensures provider != null ==> k == provider.kind
    {
      if provider == null then Closed else provider.kind
    }

    predicate IsOpen()
      reads this, provider
    {
      Kind() != Closed
    }

    method Open(mode: AsideType)
      modifies provider
      ensures provider == null ==> Kind() == Closed
      ensures provider != null ==> Kind() == mode
    {
      if provider != null {
        provider.Open(mode);
      }
    }

    method Close()
      modifies provider
      ensures Kind() == Closed
    {
      if provider != null {
        provider.Close();
      }
    }
  }
}
