/** The four one-shot entry points of the bindings, `Compress`,
    `Decompress`, `CompressWithDict` and `DecompressWithDict`, as sequences
    of early-return checks around calls into an abstract zstd.  Each returns
    its outcome together with the trace of library calls it made, so that
    the order of the checks and the resources left behind can be stated.
    Each method is proved equal to a function (`CompressRun`, ...) whose
    contract says which condition fails the call, in which order the checks
    run, and what size a success reports. */
module Engine {
  import opened Zstd
  import opened Registry

  /** One call an entry point makes, in the order it makes them. */
  datatype Step =
    | LoadDict(name: Name)            // load_cdict / load_ddict
    | Bound(srcSize: nat)             // ZSTD_compressBound
    | Malloc(size: nat, ok: bool)     // malloc / malloc_orDie
    | CreateCCtx(ok: bool)            // ZSTD_createCCtx
    | FreeCCtx                        // ZSTD_freeCCtx
    | Encode                          // ZSTD_compress / ZSTD_compress_usingCDict
    | ReadContentSize                 // ZSTD_getFrameContentSize
    | ReadDictIds                     // ZSTD_getDictID_fromDDict, ZSTD_getDictID_fromFrame
    | CreateDCtx(ok: bool)            // ZSTD_createDCtx
    | FreeDCtx                        // ZSTD_freeDCtx
    | Decode                          // ZSTD_decompress / ZSTD_decompress_usingDDict

  /** What an entry point returns: the `{NULL, -1}` failure, a buffer with
      the size reported to the caller, or the end of the process through a
      `*_orDie` helper. */
  datatype Outcome = Failed | Produced(data: Buffer, size: nat) | Exited(code: int)

  /** An entry point's result together with the calls it made. */
  datatype Run = Run(res: Outcome, trace: seq<Step>)

  /** Exit status of `malloc_orDie` when `malloc` returns NULL. */
  const ErrorMalloc: int := 8

  /** How many output buffers, compression contexts and decompression
      contexts are allocated and not yet freed. */
  datatype Held = Held(buffers: nat, cctxs: nat, dctxs: nat)

  const Nothing: Held := Held(0, 0, 0)

  /** The resources held after one more call. */
  function Apply(held: Held, s: Step): Held {
    match s
    case Malloc(_, true) => held.(buffers := held.buffers + 1)
    case CreateCCtx(true) => held.(cctxs := held.cctxs + 1)
    case FreeCCtx => held.(cctxs := if held.cctxs > 0 then held.cctxs - 1 else 0)
    case CreateDCtx(true) => held.(dctxs := held.dctxs + 1)
    case FreeDCtx => held.(dctxs := if held.dctxs > 0 then held.dctxs - 1 else 0)
    case _ => held
  }

  /** The resources held after running `trace` from nothing. */
  function Live(trace: seq<Step>): Held {
    if |trace| == 0 then Nothing else Apply(Live(trace[..|trace| - 1]), trace[|trace| - 1])
  }

  lemma LiveSnoc(trace: seq<Step>, s: Step)
    ensures Live(trace + [s]) == Apply(Live(trace), s)
  {
    assert (trace + [s])[..|trace|] == trace;
  }

  /** What is still allocated once the entry point has returned: everything
      live except an allocated result buffer, which the caller now owns. */
  function Leaked(r: Run): Held {
    var live := Live(r.trace);
    if r.res.Produced? && r.res.data.Block? && live.buffers > 0 then live.(buffers := live.buffers - 1) else live
  }

  // ---------------------------------------------------------------- Compress

  /** `Compress` as a function of what the library calls return. */
  function CompressRun(codec: Codec, libc: Libc, src: seq<byte>): (r: Run)
    ensures var bound := codec.compressBound(|src|);
            var dst := if libc.mallocSucceeds(bound) then Block(bound) else NullBuffer;
            && r.trace == [Bound(|src|), Malloc(bound, libc.mallocSucceeds(bound)), Encode]
            && !r.res.Exited?
            && (r.res.Failed? <==> codec.compress(dst, src, Level).Error?)
            && (r.res.Produced? ==> r.res.data == dst && Size(r.res.size) == codec.compress(dst, src, Level))
  {
    var bound := codec.compressBound(|src|);
    var ok := libc.mallocSucceeds(bound);
    var dst := if ok then Block(bound) else NullBuffer;
    var trace := [Bound(|src|), Malloc(bound, ok), Encode];
    match codec.compress(dst, src, Level)
    case Error(_) => Run(Failed, trace)
    case Size(n) => Run(Produced(dst, n), trace)
  }

  /** A failed `Compress` leaves its scratch buffer allocated (whenever
      `malloc` gave one); a successful one hands it to the caller. */
  lemma {:induction false} CompressLeaks(codec: Codec, libc: Libc, src: seq<byte>)
    ensures var r := CompressRun(codec, libc, src);
            var ok := libc.mallocSucceeds(codec.compressBound(|src|));
            && (r.res.Failed? ==> Leaked(r) == Held(if ok then 1 else 0, 0, 0))
            && (r.res.Produced? ==> Leaked(r) == Nothing)
  {
    var r := CompressRun(codec, libc, src);
    var bound := codec.compressBound(|src|);
    var ok := libc.mallocSucceeds(bound);
    assert [Bound(|src|)][..0] == [];
    LiveSnoc([Bound(|src|)], Malloc(bound, ok));
    assert [Bound(|src|)] + [Malloc(bound, ok)] == [Bound(|src|), Malloc(bound, ok)];
    LiveSnoc([Bound(|src|), Malloc(bound, ok)], Encode);
    assert [Bound(|src|), Malloc(bound, ok)] + [Encode] == r.trace;
  }

  /** `Compress`: a scratch buffer of `compressBound(|src|)` bytes (its
      allocation is not checked), one compression call at level 3, and the
      codec's size as the result. */
  method Compress(codec: Codec, libc: Libc, src: seq<byte>) returns (res: Outcome, trace: seq<Step>)
    ensures Run(res, trace) == CompressRun(codec, libc, src)
  {
    var rSize := |src|;
    var cBuffSize := codec.compressBound(rSize);
    var cBuff := if libc.mallocSucceeds(cBuffSize) then Block(cBuffSize) else NullBuffer;
    trace := [Bound(rSize), Malloc(cBuffSize, cBuff.Block?), Encode];
    var cSize := codec.compress(cBuff, src, Level);
    if cSize.Error? {
      return Failed, trace;
    }
    return Produced(cBuff, cSize.n), trace;
  }

  // -------------------------------------------------------------- Decompress

  /** `Decompress` as a function of what the library calls return: the frame
      must declare its content size (a malformed or an unknown size fails,
      with no streaming fallback); a buffer of exactly that size is
      allocated or the process exits; one decompression call runs, and the
      declared size is reported when the codec produced exactly that many
      bytes. */
  function DecompressRun(codec: Codec, libc: Libc, frame: seq<byte>): (r: Run)
    ensures var cs := codec.frameContentSize(frame);
            && (!cs.Known? ==> r == Run(Failed, [ReadContentSize]))
            && (r.res.Exited? <==> cs.Known? && !libc.mallocSucceeds(cs.n))
            && (r.res.Exited? ==> r == Run(Exited(ErrorMalloc), [ReadContentSize, Malloc(cs.n, false)]))
            && (Decode in r.trace <==> cs.Known? && libc.mallocSucceeds(cs.n))
            && (Decode in r.trace ==> r.trace == [ReadContentSize, Malloc(cs.n, true), Decode])
            && (r.res.Produced? <==>
                  cs.Known? && libc.mallocSucceeds(cs.n) && codec.decompress(Block(cs.n), frame) == Size(cs.n))
            && (r.res.Produced? ==> r.res == Produced(Block(cs.n), cs.n))
  {
    match codec.frameContentSize(frame)
    case ContentSizeError => Run(Failed, [ReadContentSize])
    case ContentSizeUnknown => Run(Failed, [ReadContentSize])
    case Known(n) =>
      if !libc.mallocSucceeds(n) then Run(Exited(ErrorMalloc), [ReadContentSize, Malloc(n, false)])
      else
        var trace := [ReadContentSize, Malloc(n, true), Decode];
        if codec.decompress(Block(n), frame) == Size(n) then Run(Produced(Block(n), n), trace)
        else Run(Failed, trace)
  }

  /** A `Decompress` that fails after the allocation (a decode error or a
      size mismatch) leaves the output buffer allocated. */
  lemma {:induction false} DecompressLeaks(codec: Codec, libc: Libc, frame: seq<byte>)
    ensures var r := DecompressRun(codec, libc, frame);
            var cs := codec.frameContentSize(frame);
            && (r.res.Failed? ==> Leaked(r) == Held(if cs.Known? && libc.mallocSucceeds(cs.n) then 1 else 0, 0, 0))
            && (r.res.Produced? ==> Leaked(r) == Nothing)
  {
    var r := DecompressRun(codec, libc, frame);
    assert [ReadContentSize][..0] == [];
    if Decode in r.trace {
      var n := codec.frameContentSize(frame).n;
      LiveSnoc([ReadContentSize], Malloc(n, true));
      assert [ReadContentSize] + [Malloc(n, true)] == [ReadContentSize, Malloc(n, true)];
      LiveSnoc([ReadContentSize, Malloc(n, true)], Decode);
      assert [ReadContentSize, Malloc(n, true)] + [Decode] == r.trace;
    }
  }

  /** `Decompress`. */
  method Decompress(codec: Codec, libc: Libc, frame: seq<byte>) returns (res: Outcome, trace: seq<Step>)
    ensures Run(res, trace) == DecompressRun(codec, libc, frame)
  {
    var rSize := codec.frameContentSize(frame);
    trace := [ReadContentSize];
    if rSize.ContentSizeError? {
      return Failed, trace;
    }
    if rSize.ContentSizeUnknown? {
      return Failed, trace;
    }
    if !libc.mallocSucceeds(rSize.n) {
      return Exited(ErrorMalloc), trace + [Malloc(rSize.n, false)];
    }
    var rBuff := Block(rSize.n);
    trace := trace + [Malloc(rSize.n, true), Decode];
    var dSize := codec.decompress(rBuff, frame);
    if dSize.Error? {
      return Failed, trace;
    }
    if dSize.n != rSize.n {
      return Failed, trace;
    }
    return Produced(rBuff, rSize.n), trace;
  }

  // -------------------------------------------------------- CompressWithDict

  /** `CompressWithDict` once `load_cdict` has returned `cdict`: a missing
      dictionary fails before any context, allocation or codec call;
      otherwise a context is created (unchecked), a buffer of
      `compressBound(|src|)` bytes is allocated or the process exits, and
      one compression with the dictionary runs, whose size is reported. */
  function CompressWithDictRun(cdict: CDict?, codec: Codec, libc: Libc, src: seq<byte>, dict: Name): (r: Run)
    ensures var bound := codec.compressBound(|src|);
            var cSize := if cdict == null then Error(0)
                         else codec.compressUsingCDict(codec.cctxCreated, Block(bound), src, cdict);
            && (cdict == null <==> r.trace == [LoadDict(dict)])
            && (cdict == null ==> r.res == Failed)
            && (cdict != null ==>
                  |r.trace| >= 4 && r.trace[..4] ==
                  [LoadDict(dict), CreateCCtx(codec.cctxCreated), Bound(|src|), Malloc(bound, libc.mallocSucceeds(bound))])
            && (r.res.Exited? <==> cdict != null && !libc.mallocSucceeds(bound))
            && (r.res.Exited? ==> r.res.code == ErrorMalloc)
            && (Encode in r.trace <==> cdict != null && libc.mallocSucceeds(bound))
            && (r.res.Produced? <==> Encode in r.trace && cSize.Size?)
            && (r.res.Produced? ==> r.res == Produced(Block(bound), cSize.n))
  {
    if cdict == null then Run(Failed, [LoadDict(dict)])
    else
      var bound := codec.compressBound(|src|);
      var prefix := [LoadDict(dict), CreateCCtx(codec.cctxCreated), Bound(|src|)];
      if !libc.mallocSucceeds(bound) then Run(Exited(ErrorMalloc), prefix + [Malloc(bound, false)])
      else
        var trace := prefix + [Malloc(bound, true), Encode];
        match codec.compressUsingCDict(codec.cctxCreated, Block(bound), src, cdict)
        case Error(_) => Run(Failed, trace)
        case Size(n) => Run(Produced(Block(bound), n), trace + [FreeCCtx])
  }

  /** The resources held along a `CompressWithDict` call that got its
      buffer. */
  lemma LiveCompressWithDict(dict: Name, cctx: bool, srcSize: nat, bound: nat)
    ensures var encoded := [LoadDict(dict), CreateCCtx(cctx), Bound(srcSize)] + [Malloc(bound, true), Encode];
            && Live(encoded) == Held(1, if cctx then 1 else 0, 0)
            && Live(encoded + [FreeCCtx]) == Held(1, 0, 0)
  {
    var t1 := [LoadDict(dict)];
    assert t1[..0] == [];
    var t2 := t1 + [CreateCCtx(cctx)];
    var t3 := t2 + [Bound(srcSize)];
    var t4 := t3 + [Malloc(bound, true)];
    var t5 := t4 + [Encode];
    LiveSnoc(t1, CreateCCtx(cctx));
    LiveSnoc(t2, Bound(srcSize));
    LiveSnoc(t3, Malloc(bound, true));
    LiveSnoc(t4, Encode);
    LiveSnoc(t5, FreeCCtx);
    assert [LoadDict(dict), CreateCCtx(cctx), Bound(srcSize)] + [Malloc(bound, true), Encode] == t5;
  }

  /** A `CompressWithDict` whose compression call fails leaves both the
      context (when one was created) and the buffer allocated; a successful
      one frees the context and hands the buffer to the caller. */
  lemma {:induction false} CompressWithDictLeaks(cdict: CDict?, codec: Codec, libc: Libc, src: seq<byte>, dict: Name)
    ensures var r := CompressWithDictRun(cdict, codec, libc, src, dict);
            var gotBuffer := cdict != null && libc.mallocSucceeds(codec.compressBound(|src|));
            && (r.res.Failed? ==>
                  Leaked(r) == if gotBuffer then Held(1, if codec.cctxCreated then 1 else 0, 0) else Nothing)
            && (r.res.Produced? ==> Leaked(r) == Nothing)
  {
    var r := CompressWithDictRun(cdict, codec, libc, src, dict);
    var bound := codec.compressBound(|src|);
    if cdict == null {
      assert [LoadDict(dict)][..0] == [];
      assert Live([LoadDict(dict)]) == Nothing;
    } else if libc.mallocSucceeds(bound) {
      var encoded := [LoadDict(dict), CreateCCtx(codec.cctxCreated), Bound(|src|)] + [Malloc(bound, true), Encode];
      LiveCompressWithDict(dict, codec.cctxCreated, |src|, bound);
      assert r.trace == encoded || r.trace == encoded + [FreeCCtx];
    }
  }

  /** `CompressWithDict`. */
  method CompressWithDict(reg: Registry, codec: Codec, libc: Libc, src: seq<byte>, dict: Name)
    returns (res: Outcome, trace: seq<Step>)
    requires reg.Valid()
    ensures Run(res, trace) == CompressWithDictRun(HandleFor(reg.CTable(), dict, null), codec, libc, src, dict)
  {
    var cdict := reg.LoadCDict(dict);
    if cdict == null {
      return Failed, [LoadDict(dict)];
    }
    var rSize := |src|;
    var cctx := codec.cctxCreated;
    var cBuffSize := codec.compressBound(rSize);
    var prefix := [LoadDict(dict), CreateCCtx(cctx), Bound(rSize)];
    if !libc.mallocSucceeds(cBuffSize) {
      return Exited(ErrorMalloc), prefix + [Malloc(cBuffSize, false)];
    }
    var cBuff := Block(cBuffSize);
    trace := prefix + [Malloc(cBuffSize, true), Encode];
    var cSize := codec.compressUsingCDict(cctx, cBuff, src, cdict);
    if cSize.Error? {
      return Failed, trace;
    }
    return Produced(cBuff, cSize.n), trace + [FreeCCtx];
  }

  // ------------------------------------------------------ DecompressWithDict

  /** `DecompressWithDict` once `load_ddict` has returned `ddict`: a missing
      dictionary fails before anything else; then the frame must declare
      its content size; a buffer of that size is allocated or the process
      exits; the dictionary IDs of the frame and of the decode dictionary
      must agree, and a context must be created, before the one
      decompression call; the declared size is reported when the codec
      produced exactly that many bytes. */
  function DecompressWithDictRun(ddict: DDict?, codec: Codec, libc: Libc, frame: seq<byte>, dict: Name): (r: Run)
    ensures var cs := codec.frameContentSize(frame);
            var n := if cs.Known? then cs.n else 0;
            && (ddict == null <==> r.trace == [LoadDict(dict)])
            && (ddict == null ==> r.res == Failed)
            && (ddict != null && !cs.Known? ==> r == Run(Failed, [LoadDict(dict), ReadContentSize]))
            && (r.res.Exited? <==> ddict != null && cs.Known? && !libc.mallocSucceeds(n))
            && (r.res.Exited? ==> r.res.code == ErrorMalloc)
            && (ReadDictIds in r.trace <==> ddict != null && cs.Known? && libc.mallocSucceeds(n))
            && (Decode in r.trace <==>
                  ReadDictIds in r.trace && ddict != null &&
                  codec.dictIdFromFrame(frame) == codec.dictIdFromDDict(ddict) && codec.dctxCreated)
            && (Decode in r.trace ==>
                  r.trace == [LoadDict(dict), ReadContentSize, Malloc(n, true), ReadDictIds,
                              CreateDCtx(true), Decode, FreeDCtx])
            && (r.res.Produced? <==>
                  Decode in r.trace && ddict != null && codec.decompressUsingDDict(Block(n), frame, ddict) == Size(n))
            && (r.res.Produced? ==> r.res == Produced(Block(n), n))
  {
    if ddict == null then Run(Failed, [LoadDict(dict)])
    else match codec.frameContentSize(frame)
      case ContentSizeError => Run(Failed, [LoadDict(dict), ReadContentSize])
      case ContentSizeUnknown => Run(Failed, [LoadDict(dict), ReadContentSize])
      case Known(n) =>
        if !libc.mallocSucceeds(n) then
          Run(Exited(ErrorMalloc), [LoadDict(dict), ReadContentSize, Malloc(n, false)])
        else
          var checked := [LoadDict(dict), ReadContentSize, Malloc(n, true), ReadDictIds];
          if codec.dictIdFromFrame(frame) != codec.dictIdFromDDict(ddict) then Run(Failed, checked)
          else if !codec.dctxCreated then Run(Failed, checked + [CreateDCtx(false)])
          else
            var trace := checked + [CreateDCtx(true), Decode, FreeDCtx];
            if codec.decompressUsingDDict(Block(n), frame, ddict) == Size(n) then Run(Produced(Block(n), n), trace)
            else Run(Failed, trace)
  }

  /** The resources held along a `DecompressWithDict` call that got its
      buffer. */
  lemma LiveDecompressWithDict(dict: Name, n: nat)
    ensures var checked := [LoadDict(dict), ReadContentSize, Malloc(n, true), ReadDictIds];
            && Live(checked) == Held(1, 0, 0)
            && Live(checked + [CreateDCtx(false)]) == Held(1, 0, 0)
            && Live(checked + [CreateDCtx(true), Decode, FreeDCtx]) == Held(1, 0, 0)
  {
    var t1 := [LoadDict(dict)];
    assert t1[..0] == [];
    var t2 := t1 + [ReadContentSize];
    var t3 := t2 + [Malloc(n, true)];
    var t4 := t3 + [ReadDictIds];
    LiveSnoc(t1, ReadContentSize);
    LiveSnoc(t2, Malloc(n, true));
    LiveSnoc(t3, ReadDictIds);
    assert t4 == [LoadDict(dict), ReadContentSize, Malloc(n, true), ReadDictIds];
    LiveSnoc(t4, CreateDCtx(false));
    var t5 := t4 + [CreateDCtx(true)];
    var t6 := t5 + [Decode];
    LiveSnoc(t4, CreateDCtx(true));
    LiveSnoc(t5, Decode);
    LiveSnoc(t6, FreeDCtx);
    assert t4 + [CreateDCtx(true), Decode, FreeDCtx] == t6 + [FreeDCtx];
  }

  /** A `DecompressWithDict` that fails after the allocation (an ID
      mismatch, no context, a decode error, a size mismatch) leaves the
      output buffer allocated; the context is always freed after the
      decompression call. */
  lemma {:induction false} DecompressWithDictLeaks(ddict: DDict?, codec: Codec, libc: Libc, frame: seq<byte>, dict: Name)
    ensures var r := DecompressWithDictRun(ddict, codec, libc, frame, dict);
            var cs := codec.frameContentSize(frame);
            var gotBuffer := ddict != null && cs.Known? && libc.mallocSucceeds(cs.n);
            && (r.res.Failed? ==> Leaked(r) == Held(if gotBuffer then 1 else 0, 0, 0))
            && (r.res.Produced? ==> Leaked(r) == Nothing)
  {
    var r := DecompressWithDictRun(ddict, codec, libc, frame, dict);
    var cs := codec.frameContentSize(frame);
    var t1 := [LoadDict(dict)];
    assert t1[..0] == [];
    assert Live(t1) == Nothing;
    if ddict != null {
      LiveSnoc(t1, ReadContentSize);
      assert t1 + [ReadContentSize] == [LoadDict(dict), ReadContentSize];
      assert Live([LoadDict(dict), ReadContentSize]) == Nothing;
      if cs.Known? && libc.mallocSucceeds(cs.n) {
        var checked := [LoadDict(dict), ReadContentSize, Malloc(cs.n, true), ReadDictIds];
        LiveDecompressWithDict(dict, cs.n);
        assert r.trace == checked || r.trace == checked + [CreateDCtx(false)] ||
               r.trace == checked + [CreateDCtx(true), Decode, FreeDCtx];
      }
    }
  }

  /** `DecompressWithDict`. */
  method DecompressWithDict(reg: Registry, codec: Codec, libc: Libc, frame: seq<byte>, dict: Name)
    returns (res: Outcome, trace: seq<Step>)
    requires reg.Valid()
    ensures Run(res, trace) == DecompressWithDictRun(HandleFor(reg.DTable(), dict, null), codec, libc, frame, dict)
  {
    var ddict := reg.LoadDDict(dict);
    if ddict == null {
      return Failed, [LoadDict(dict)];
    }
    var rSize := codec.frameContentSize(frame);
    if rSize.ContentSizeError? {
      return Failed, [LoadDict(dict), ReadContentSize];
    }
    if rSize.ContentSizeUnknown? {
      return Failed, [LoadDict(dict), ReadContentSize];
    }
    if !libc.mallocSucceeds(rSize.n) {
      return Exited(ErrorMalloc), [LoadDict(dict), ReadContentSize, Malloc(rSize.n, false)];
    }
    var rBuff := Block(rSize.n);
    var checked := [LoadDict(dict), ReadContentSize, Malloc(rSize.n, true), ReadDictIds];
    var expectedDictId := codec.dictIdFromDDict(ddict);
    var actualDictId := codec.dictIdFromFrame(frame);
    if actualDictId != expectedDictId {
      return Failed, checked;
    }
    if !codec.dctxCreated {
      return Failed, checked + [CreateDCtx(false)];
    }
    var dSize := codec.decompressUsingDDict(rBuff, frame, ddict);
    trace := checked + [CreateDCtx(true), Decode, FreeDCtx];
    if dSize.Error? {
      return Failed, trace;
    }
    if dSize.n != rSize.n {
      return Failed, trace;
    }
    return Produced(rBuff, rSize.n), trace;
  }
}
