/** The error handling of src/error.c: the ggen errno record and the destructor stack that
    ggen functions use to release what they allocated when they fail. Destructors are foreign
    functions; here a destructor is an id and calling it appends a `Call` to a log. */
module ErrorStack {
  import opened Common

  /** GGEN_DESTRUCTOR_STACK_LENGTH. */
  const StackLength: nat := 1000

  /** A destructor applied to its object. */
  datatype Call = Call(func: nat, obj: nat)

  /** ggen_errno_t. */
  datatype Errno = Errno(ggenError: ErrorCode, gslError: int, igraphError: int)

  /** The installed GSL error handler: ggen's own, or some other one. */
  datatype Handler = GgenHandler | OtherHandler(id: nat)

  /** What `ggen_error_strerror` returns: a ggen message, or the message igraph or GSL gives
      for its own code. */
  datatype Message = Text(s: string) | IgraphMessage(code: int) | GslMessage(code: int)

  /** The ggen_error_type_t values. */
  function Code(e: ErrorCode): nat
  {
    match e
    case Success => 0
    case Failure => 1
    case IgraphError => 2
    case GslError => 3
    case EInval => 4
    case ENoMem => 5
  }

  /** ggen_error_msgs. */
  const Messages: seq<string> :=
    ["success", "failure", "internal igraph error", "internal GSL error", "invalid value",
     "no more memory"]

  /** `ggen_error_strerror`. */
  function StrError(errno: Errno): (r: Message)
    ensures errno.ggenError == IgraphError <==> r == IgraphMessage(errno.igraphError)
    ensures errno.ggenError == GslError <==> r == GslMessage(errno.gslError)
    ensures r.Text? ==> r.s == Messages[Code(errno.ggenError)]
  {
    match errno.ggenError
    case IgraphError => IgraphMessage(errno.igraphError)
    case GslError => GslMessage(errno.gslError)
    case _ => Text(Messages[Code(errno.ggenError)])
  }

  /** Different ggen codes give different messages. */
  lemma StrErrorDistinct(a: Errno, b: Errno)
    requires a.ggenError != b.ggenError
    requires a.ggenError !in {IgraphError, GslError} && b.ggenError !in {IgraphError, GslError}
    ensures StrError(a) != StrError(b)
  {
    assert Messages[0] != Messages[1] && Messages[0] != Messages[4] && Messages[0] != Messages[5];
    assert Messages[1] != Messages[4] && Messages[1] != Messages[5] && Messages[4] != Messages[5];
  }

  /** The destructors registered at slots lo .. hi-1, in registration order, that `clean` runs:
      all of them on failure, those not flagged as return values on success. */
  function Registered(fs: seq<nat>, os: seq<nat>, fl: seq<int>, lo: nat, hi: nat, success: int)
    : (r: seq<Call>)
    requires lo <= hi <= |fs| && hi <= |os| && hi <= |fl|
    ensures |r| <= hi - lo
    decreases hi - lo
  {
    if lo == hi then []
    else (if success == 0 || fl[lo] == 0 then [Call(fs[lo], os[lo])] else [])
         + Registered(fs, os, fl, lo + 1, hi, success)
  }

  /** The destructors at slots lo .. hi-1, newest first, as `pop` runs them. */
  function NewestFirst(fs: seq<nat>, os: seq<nat>, lo: nat, hi: nat): (r: seq<Call>)
    requires lo <= hi <= |fs| && hi <= |os|
    ensures |r| == hi - lo
    decreases hi - lo
  {
    if lo == hi then [] else [Call(fs[hi - 1], os[hi - 1])] + NewestFirst(fs, os, lo, hi - 1)
  }

  function ReverseCalls(s: seq<Call>): (r: seq<Call>)
    ensures |r| == |s| && forall k | 0 <= k < |s| :: r[k] == s[|s| - 1 - k]
  {
    if s == [] then [] else ReverseCalls(s[1..]) + [s[0]]
  }

  lemma {:induction false} RegisteredSnoc(fs: seq<nat>, os: seq<nat>, fl: seq<int>, lo: nat,
                                          hi: nat, success: int)
    requires lo < hi <= |fs| && hi <= |os| && hi <= |fl|
    ensures Registered(fs, os, fl, lo, hi, success)
            == Registered(fs, os, fl, lo, hi - 1, success)
               + (if success == 0 || fl[hi - 1] == 0 then [Call(fs[hi - 1], os[hi - 1])] else [])
    decreases hi - lo
  {
    if lo < hi - 1 {
      RegisteredSnoc(fs, os, fl, lo + 1, hi, success);
    }
  }

  /** On failure `clean` runs every destructor of the frame; `pop` runs the same ones in the
      opposite order. */
  lemma {:induction false} PopReversesClean(fs: seq<nat>, os: seq<nat>, fl: seq<int>, lo: nat,
                                            hi: nat)
    requires lo <= hi <= |fs| && hi <= |os| && hi <= |fl|
    ensures NewestFirst(fs, os, lo, hi) == ReverseCalls(Registered(fs, os, fl, lo, hi, 0))
    decreases hi - lo
  {
    if lo < hi {
      PopReversesClean(fs, os, fl, lo, hi - 1);
      RegisteredSnoc(fs, os, fl, lo, hi, 0);
      var r := Registered(fs, os, fl, lo, hi - 1, 0);
      var c := Call(fs[hi - 1], os[hi - 1]);
      ReverseSnoc(r, c);
    }
  }

  lemma {:induction false} ReverseSnoc(s: seq<Call>, c: Call)
    ensures ReverseCalls(s + [c]) == [c] + ReverseCalls(s)
  {
    if s != [] {
      assert (s + [c])[1..] == s[1..] + [c];
      ReverseSnoc(s[1..], c);
    } else {
      assert s + [c] == [c];
    }
  }

  lemma {:induction false} NewestFirstLow(fs: seq<nat>, os: seq<nat>, lo: nat, hi: nat)
    requires 0 < lo <= hi <= |fs| && hi <= |os|
    ensures NewestFirst(fs, os, lo - 1, hi) == NewestFirst(fs, os, lo, hi) + [Call(fs[lo - 1], os[lo - 1])]
    decreases hi - lo
  {
    if lo < hi {
      NewestFirstLow(fs, os, lo, hi - 1);
    }
  }

  /** On success `clean` runs exactly the destructors not flagged as return values. */
  lemma {:induction false} CleanOnSuccess(fs: seq<nat>, os: seq<nat>, fl: seq<int>, lo: nat,
                                          hi: nat, success: int)
    requires lo <= hi <= |fs| && hi <= |os| && hi <= |fl| && success != 0
    ensures forall c :: c in Registered(fs, os, fl, lo, hi, success)
                        <==> exists k :: lo <= k < hi && fl[k] == 0 && c == Call(fs[k], os[k])
    decreases hi - lo
  {
    if lo < hi {
      CleanOnSuccess(fs, os, fl, lo + 1, hi, success);
    }
  }

  /** `ggen_dstack`, `ggen_errno` and the saved GSL handler, with the log of destructor calls. */
  class ErrorState {
    var sp: nat
    var sfp: nat
    const fp: array<nat>
    const func: array<nat>
    const obj: array<nat>
    const flags: array<int>
    var errno: Errno
    var handler: Handler
    var savedHandler: Handler
    var called: seq<Call>

    ghost predicate Valid()
      reads this, fp
    {
      fp.Length == StackLength && func.Length == StackLength && obj.Length == StackLength
      && flags.Length == StackLength && fp != func && fp != obj && func != obj
      && sfp < StackLength && sp <= StackLength
      && forall k | 0 <= k < StackLength :: fp[k] <= StackLength
    }

    /** The zero-initialised static state, with `h` the GSL handler in place. */
    constructor (h: Handler)
      ensures Valid() && sp == 0 && sfp == 0 && called == [] && handler == h
      ensures fp[..] == seq(StackLength, _ => 0)
    {
      sp, sfp := 0, 0;
      fp := new nat[StackLength](_ => 0);
      func := new nat[StackLength](_ => 0);
      obj := new nat[StackLength](_ => 0);
      flags := new int[StackLength](_ => 0);
      errno := Errno(Success, 0, 0);
      handler, savedHandler := h, h;
      called := [];
    }

    /** `ggen_gsl_handler`: GSL reports an error code. */
    method GslHandler(code: int)
      modifies this
      ensures errno == old(errno).(gslError := code)
      ensures sp == old(sp) && sfp == old(sfp) && handler == old(handler)
      ensures savedHandler == old(savedHandler) && called == old(called)
    {
      errno := errno.(gslError := code);
    }

    /** `ggen_error_start_stack`: open a frame at the current stack top. The outermost frame
        also clears the errno and installs ggen's GSL handler, saving the old one. */
    method StartStack() returns (r: int)
      requires Valid() && sfp < StackLength - 1 && sp < StackLength
      modifies this, fp
      ensures Valid() && r == 0
      ensures sfp == old(sfp) + 1 && sp == old(sp) && fp[..] == old(fp[..])[sfp := sp]
      ensures called == old(called)
      ensures old(sfp) == 0 ==> errno == Errno(Success, 0, 0) && handler == GgenHandler
                                && savedHandler == old(handler)
      ensures old(sfp) != 0 ==> errno == old(errno) && handler == old(handler)
                                 && savedHandler == old(savedHandler)
    {
      if sfp == 0 {
        savedHandler := handler;
        handler := GgenHandler;
        errno := Errno(Success, 0, 0);
      }
      sfp := sfp + 1;
      fp[sfp] := sp;
      return 0;
    }

    /** `ggen_error_finally_real`: register a destructor at the stack top. */
    method Finally(f: nat, ptr: nat, retval: int) returns (r: int)
      requires Valid() && sp < StackLength
      modifies this, func, obj, flags
      ensures Valid() && r == 0 && sp == old(sp) + 1 && sfp == old(sfp)
      ensures func[..] == old(func[..])[old(sp) := f] && obj[..] == old(obj[..])[old(sp) := ptr]
      ensures flags[..] == old(flags[..])[old(sp) := retval]
      ensures errno == old(errno) && handler == old(handler) && savedHandler == old(savedHandler)
      ensures called == old(called)
    {
      func[sp] := f;
      obj[sp] := ptr;
      flags[sp] := retval;
      sp := sp + 1;
      return 0;
    }

    /** `ggen_error_pop(cnt)`: run the cnt newest destructors, newest first, and drop them. */
    method Pop(cnt: nat) returns (r: int)
      requires Valid() && cnt <= sp
      modifies this
      ensures Valid() && r == 0 && sp == old(sp) - cnt && sfp == old(sfp)
      ensures called == old(called) + NewestFirst(func[..], obj[..], sp, old(sp))
      ensures errno == old(errno) && handler == old(handler) && savedHandler == old(savedHandler)
    {
      for i := 0 to cnt
        invariant Valid() && sp == old(sp) - i && sfp == old(sfp)
        invariant called == old(called) + NewestFirst(func[..], obj[..], sp, old(sp))
        invariant errno == old(errno) && handler == old(handler)
        invariant savedHandler == old(savedHandler)
      {
        NewestFirstLow(func[..], obj[..], sp, old(sp));
        sp := sp - 1;
        called := called + [Call(func[sp], obj[sp])];
      }
      return 0;
    }

    /** `ggen_error_clean(success)`: run the destructors of the current frame in registration
        order (on success, only those not flagged as return values), drop them, close the
        frame, and restore the saved GSL handler once no frame is open. */
    method Clean(success: int) returns (r: int)
      requires Valid()
      modifies this
      ensures Valid() && r == 0 && sp == fp[old(sfp)]
      ensures fp[old(sfp)] <= old(sp) ==>
                called == old(called) + Registered(func[..], obj[..], flags[..], fp[old(sfp)], old(sp), success)
      ensures fp[old(sfp)] > old(sp) ==> called == old(called)
      ensures sfp == if old(sfp) > 0 then old(sfp) - 1 else 0
      ensures errno == old(errno) && savedHandler == old(savedHandler)
      ensures handler == if sfp == 0 then old(savedHandler) else old(handler)
    {
      var prev := fp[sfp];
      var i := prev;
      while i < sp
        invariant Valid() && sp == old(sp) && sfp == old(sfp) && prev <= i
        invariant i <= StackLength && (prev <= sp ==> i <= sp) && (prev > sp ==> i == prev)
        invariant called == old(called) + Registered(func[..], obj[..], flags[..], prev, i, success)
        invariant handler == old(handler) && errno == old(errno) && savedHandler == old(savedHandler)
      {
        RegisteredSnoc(func[..], obj[..], flags[..], prev, i + 1, success);
        if success == 0 || flags[i] == 0 {
          called := called + [Call(func[i], obj[i])];
        }
        i := i + 1;
      }
      sp := prev;
      if sfp > 0 {
        sfp := sfp - 1;
      }
      if sfp == 0 {
        handler := savedHandler;
      }
      return 0;
    }

    /** `test_clean(p)` of tests/errors.c: open a frame (a check that passes, as starting a
        frame returns 0), register `free(p)`, fail a check on GGEN_EINVAL, which records the
        code and cleans the frame, and report failure. */
    method TestClean(free: nat, p: nat) returns (r: ErrorCode)
      requires Valid() && sfp < StackLength - 1 && sp < StackLength
      modifies this, fp, func, obj, flags
      ensures Valid() && r == Failure && errno.ggenError == EInval
      ensures called == old(called) + [Call(free, p)]
      ensures sp == old(sp) && sfp == old(sfp)
    {
      var s := StartStack();
      var f := Finally(free, p, 0);
      errno := errno.(ggenError := EInval);
      assert fp[sfp] == sp - 1;
      var c := Clean(0);
      assert Registered(func[..], obj[..], flags[..], sp, sp + 1, 0) == [Call(free, p)];
      return Failure;
    }
  }
}
