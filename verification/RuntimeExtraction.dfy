/**
 Extraction of the runtime code from contract creation code: the code that
 follows the last RETURN of the deployment prologue, cut before its metadata.
 */
module RuntimeExtraction {
  import opened Words
  import opened Wrappers

  type Code = seq<Byte>

  datatype Error = NoReturn | BadPrefix

  datatype Result = Ok(code: Code) | Err(error: Error)

  const RETURN: Byte := 0xf3
  const INVALID: Byte := 0xfe

  /** PUSH1 0x80 PUSH1 0x40: how compiled runtime code starts. */
  const RUNTIME_PREFIX: Code := [0x60, 0x80, 0x60, 0x40]

  const PURE_RUNTIME_PREFIX: Code := [0x60, 0x80, 0x60, 0x40, 0x52, 0x34, 0x80]

  /** The metadata marker searched for: the text "a2646970667358221220" in ASCII. */
  const MARKER: Code :=
    [0x61, 0x32, 0x36, 0x34, 0x36, 0x39, 0x37, 0x30, 0x36, 0x36,
     0x37, 0x33, 0x35, 0x38, 0x32, 0x32, 0x31, 0x32, 0x32, 0x30]

  predicate StartsAt(code: Code, at: nat, pattern: Code) {
    at + |pattern| <= |code| && code[at..at + |pattern|] == pattern
  }

  predicate IsPush(b: Byte) {
    0x60 <= b <= 0x7f
  }

  /** The offset just after a RETURN at `i`, an 0xfe separator skipped. */
  function AfterReturn(full: Code, i: nat): (pos: nat)
    requires i < |full|
  {
    if i + 1 < |full| && full[i + 1] == INVALID then i + 2 else i + 1
  }

  /** A RETURN at `i`, a PUSH two bytes before it, runtime code after it. */
  predicate DeploysAt(full: Code, i: nat) {
    && 2 <= i < |full|
    && full[i] == RETURN
    && IsPush(full[i - 2])
    && StartsAt(full, AfterReturn(full, i), RUNTIME_PREFIX)
  }

  /** The last such RETURN at or before `i`, position 3 being the first looked at. */
  function LastDeploy(full: Code, i: int): (r: Option<nat>)
    requires i < |full|
    decreases i
  {
    if i < 3 then None
    else if DeploysAt(full, i) then Some(i)
    else LastDeploy(full, i - 1)
  }

  /** The last marker that starts at or before `p`. */
  function LastMarker(code: Code, p: int): (r: Option<nat>)
    decreases p
  {
    if p < 0 then None
    else if StartsAt(code, p, MARKER) then Some(p)
    else LastMarker(code, p - 1)
  }

  /** Everything before the last metadata marker. */
  function Cut(code: Code): (r: Code) {
    match LastMarker(code, |code|)
    case None => code
    case Some(p) => LastMarkerIsLast(code, |code|); code[..p]
  }

  function Extract(full: Code): Result {
    if full == [] then Ok([])
    else if StartsAt(full, 0, PURE_RUNTIME_PREFIX) then Ok(full)
    else
      match LastDeploy(full, |full| - 1)
      case None => Err(NoReturn)
      case Some(i) =>
        LastDeployIsLast(full, |full| - 1);
        var runtime := Cut(full[AfterReturn(full, i)..]);
        if StartsAt(runtime, 0, RUNTIME_PREFIX) then Ok(runtime) else Err(BadPrefix)
  }

  method ExtractRuntime(full: Code) returns (r: Result)
    ensures r == Extract(full)
  {
    if |full| == 0 {
      return Ok([]);
    }
    if |full| >= 7 && full[0..7] == PURE_RUNTIME_PREFIX {
      return Ok(full);
    }
    var runtimeStart: Option<nat> := None;
    var i := |full| - 1;
    while i >= 3 && runtimeStart.None?
      invariant 0 <= i < |full|
      invariant runtimeStart.None? ==> LastDeploy(full, |full| - 1) == LastDeploy(full, i)
      invariant runtimeStart.Some? ==>
                  i >= 3 && DeploysAt(full, i) && runtimeStart.value == AfterReturn(full, i)
                  && LastDeploy(full, |full| - 1) == Some(i)
      decreases i, runtimeStart.None?
    {
      var found := false;
      if full[i] == RETURN {
        if i >= 2 && 0x60 <= full[i - 2] <= 0x7f {
          var pos := i + 1;
          if pos < |full| && full[pos] == INVALID {
            pos := pos + 1;
          }
          if pos + 4 <= |full| && full[pos..pos + 4] == RUNTIME_PREFIX {
            runtimeStart := Some(pos);
            found := true;
          }
        }
      }
      if !found {
        i := i - 1;
      }
    }
    if runtimeStart.None? {
      return Err(NoReturn);
    }
    LastDeployIsLast(full, |full| - 1);
    var runtime := full[runtimeStart.value..];
    var cbor := LastMarker(runtime, |runtime|);
    if cbor.Some? {
      LastMarkerIsLast(runtime, |runtime|);
      runtime := runtime[..cbor.value];
    }
    if |runtime| < 4 || runtime[0..4] != RUNTIME_PREFIX {
      return Err(BadPrefix);
    }
    return Ok(runtime);
  }

  // ---------------------------------------------------------------------
  // What the searches find
  // ---------------------------------------------------------------------

  lemma {:induction false} LastDeployIsLast(full: Code, i: int)
    requires i < |full|
    ensures match LastDeploy(full, i)
            case None => forall j :: 3 <= j <= i ==> !DeploysAt(full, j)
            case Some(k) => 3 <= k <= i && DeploysAt(full, k)
                            && forall j :: k < j <= i ==> !DeploysAt(full, j)
    decreases i
  {
    if i >= 3 && !DeploysAt(full, i) {
      LastDeployIsLast(full, i - 1);
    }
  }

  lemma {:induction false} LastMarkerIsLast(code: Code, p: int)
    requires p <= |code|
    ensures match LastMarker(code, p)
            case None => forall j :: 0 <= j <= p ==> !StartsAt(code, j, MARKER)
            case Some(k) => k <= p && StartsAt(code, k, MARKER)
                            && forall j :: k < j <= p ==> !StartsAt(code, j, MARKER)
    decreases p
  {
    if p >= 0 && !StartsAt(code, p, MARKER) {
      LastMarkerIsLast(code, p - 1);
    }
  }

  lemma MarkerMisses(code: Code, k: nat)
    requires StartsAt(code, k, MARKER) && StartsAt(code, 0, RUNTIME_PREFIX)
    ensures k >= 4
  {
    assert code[k..k + 20][0] == code[k] == 0x61;
    var head := code[0..4];
    assert head[0] == code[0] && head[1] == code[1] && head[2] == code[2] && head[3] == code[3];
  }

  /** Cutting never touches the runtime prefix: the marker cannot start inside it. */
  lemma CutKeepsPrefix(code: Code)
    requires StartsAt(code, 0, RUNTIME_PREFIX)
    ensures StartsAt(Cut(code), 0, RUNTIME_PREFIX)
  {
    LastMarkerIsLast(code, |code|);
    match LastMarker(code, |code|)
    case None =>
    case Some(p) =>
      MarkerMisses(code, p);
      assert code[..p][0..4] == code[0..4];
  }

  /** `r` is `code` up to its last marker, or all of it if it has none. */
  ghost predicate CutBeforeLastMarker(code: Code, r: Code) {
    && r <= code
    && (forall j :: |r| < j <= |code| ==> !StartsAt(code, j, MARKER))
    && (if |r| < |code| then StartsAt(code, |r|, MARKER)
        else forall j :: 0 <= j <= |code| ==> !StartsAt(code, j, MARKER))
  }

  /** The marker is the CBOR header as text, in hexadecimal digits. */
  lemma MarkerIsText()
    ensures var text := "a2646970667358221220";
            |MARKER| == |text| && forall i :: 0 <= i < |text| ==> MARKER[i] == text[i] as int
  {
  }

  /**
   What extraction returns, for all code.  Nothing, and code that starts with
   60806040523480, is returned as it is.  Otherwise it succeeds exactly when some
   RETURN of the pattern exists; it then returns what follows the last one, cut
   before the last marker.  The final prefix check never fails.
   */
  lemma ExtractionFindsLastRuntime(full: Code)
    ensures if full == [] || (|full| >= 7 && full[..7] == [0x60, 0x80, 0x60, 0x40, 0x52, 0x34, 0x80])
            then Extract(full) == Ok(full)
            else
              match Extract(full)
              case Err(e) => e == NoReturn && forall i :: 3 <= i < |full| ==> !DeploysAt(full, i)
              case Ok(r) =>
                exists i ::
                  && 3 <= i < |full| && DeploysAt(full, i)
                  && (forall j :: i < j < |full| ==> !DeploysAt(full, j))
                  && CutBeforeLastMarker(full[AfterReturn(full, i)..], r)
  {
    assert |full| >= 7 ==> full[0..7] == full[..7];
    if full != [] {
      LastDeployIsLast(full, |full| - 1);
      match LastDeploy(full, |full| - 1)
      case None =>
      case Some(i) => ExtractedIsCut(full, i);
    }
  }

  lemma ExtractedIsCut(full: Code, i: nat)
    requires i < |full| && DeploysAt(full, i)
    ensures var runtime := full[AfterReturn(full, i)..];
            StartsAt(Cut(runtime), 0, RUNTIME_PREFIX) && CutBeforeLastMarker(runtime, Cut(runtime))
  {
    var runtime := full[AfterReturn(full, i)..];
    assert runtime[0..4] == full[AfterReturn(full, i)..AfterReturn(full, i) + 4];
    CutKeepsPrefix(runtime);
    LastMarkerIsLast(runtime, |runtime|);
  }

  // ---------------------------------------------------------------------
  // Against the way creation code is laid out
  // ---------------------------------------------------------------------

  /** Prologue, PUSH, one byte, RETURN, separator or not. */
  function Front(prologue: Code, push: Byte, operand: Byte, separated: bool): Code {
    prologue + [push, operand, 0xf3] + (if separated then [0xfe] else [])
  }

  /** Creation code: the runtime behind the code that returns it. */
  function Creation(prologue: Code, push: Byte, operand: Byte, separated: bool, runtime: Code): Code {
    Front(prologue, push, operand, separated) + runtime
  }

  lemma StartsShifts(front: Code, code: Code, at: nat, pattern: Code)
    ensures StartsAt(front + code, |front| + at, pattern) <==> StartsAt(code, at, pattern)
  {
    if at + |pattern| <= |code| {
      var s := (front + code)[|front| + at..|front| + at + |pattern|];
      var t := code[at..at + |pattern|];
      forall k | 0 <= k < |pattern|
        ensures s[k] == t[k]
      {
        assert s[k] == (front + code)[|front| + at + k];
      }
      assert s == t;
    }
  }

  lemma DeployShifts(front: Code, runtime: Code, r: nat)
    requires 2 <= r < |runtime|
    ensures DeploysAt(front + runtime, |front| + r) <==> DeploysAt(runtime, r)
  {
    StartsShifts(front, runtime, AfterReturn(runtime, r), RUNTIME_PREFIX);
  }

  lemma NoDeployAfter(front: Code, runtime: Code, j: nat)
    requires front != [] && |front| <= j < |front| + |runtime|
    requires StartsAt(runtime, 0, RUNTIME_PREFIX)
    requires forall r :: 2 <= r < |runtime| ==> !DeploysAt(runtime, r)
    ensures !DeploysAt(front + runtime, j)
  {
    if j >= |front| + 2 {
      DeployShifts(front, runtime, j - |front|);
    } else {
      var head := runtime[0..4];
      assert (front + runtime)[j] == runtime[j - |front|] == head[j - |front|];
    }
  }

  lemma DeploysBefore(front: Code, i: nat, runtime: Code)
    requires 2 <= i < |front| && front[i] == RETURN && IsPush(front[i - 2])
    requires |front| == i + 1 || (|front| == i + 2 && front[i + 1] == INVALID)
    requires StartsAt(runtime, 0, RUNTIME_PREFIX)
    ensures AfterReturn(front + runtime, i) == |front|
    ensures DeploysAt(front + runtime, i)
  {
    var head := runtime[0..4];
    assert runtime[0] == head[0];
    StartsShifts(front, runtime, 0, RUNTIME_PREFIX);
  }

  /** The last position that matches is the one found. */
  lemma {:induction false} LastDeployIs(full: Code, i: nat, hi: nat)
    requires 3 <= i <= hi < |full| && DeploysAt(full, i)
    requires forall j :: i < j <= hi ==> !DeploysAt(full, j)
    ensures LastDeploy(full, hi) == Some(i)
  {
    if i < hi {
      LastDeployIs(full, i, hi - 1);
    }
  }

  lemma NoDeployBehind(front: Code, i: nat, runtime: Code, j: nat)
    requires i < |front| && (|front| == i + 1 || (|front| == i + 2 && front[i + 1] == INVALID))
    requires StartsAt(runtime, 0, RUNTIME_PREFIX)
    requires forall r :: 2 <= r < |runtime| ==> !DeploysAt(runtime, r)
    requires i < j < |front| + |runtime|
    ensures !DeploysAt(front + runtime, j)
  {
    if j >= |front| {
      NoDeployAfter(front, runtime, j);
    } else {
      assert (front + runtime)[j] == INVALID;
    }
  }

  lemma NothingDeploysBehind(front: Code, i: nat, runtime: Code)
    requires i < |front| && (|front| == i + 1 || (|front| == i + 2 && front[i + 1] == INVALID))
    requires StartsAt(runtime, 0, RUNTIME_PREFIX)
    requires forall r :: 2 <= r < |runtime| ==> !DeploysAt(runtime, r)
    ensures forall j :: i < j < |front| + |runtime| ==> !DeploysAt(front + runtime, j)
  {
    forall j | i < j < |front| + |runtime|
      ensures !DeploysAt(front + runtime, j)
    {
      NoDeployBehind(front, i, runtime, j);
    }
  }

  /** The prologue's own RETURN is the last one that matches. */
  lemma LastDeployIsTheFirstOne(front: Code, i: nat, runtime: Code)
    requires 3 <= i < |front| && front[i] == RETURN && IsPush(front[i - 2])
    requires |front| == i + 1 || (|front| == i + 2 && front[i + 1] == INVALID)
    requires StartsAt(runtime, 0, RUNTIME_PREFIX)
    requires forall r :: 2 <= r < |runtime| ==> !DeploysAt(runtime, r)
    ensures AfterReturn(front + runtime, i) == |front|
    ensures LastDeploy(front + runtime, |front| + |runtime| - 1) == Some(i)
  {
    DeploysBefore(front, i, runtime);
    NothingDeploysBehind(front, i, runtime);
    LastDeployIs(front + runtime, i, |front| + |runtime| - 1);
  }

  /** With one matching RETURN last, extraction returns what follows it, without its metadata. */
  lemma ExtractsBehind(full: Code, i: nat, runtime: Code)
    requires full != [] && !StartsAt(full, 0, PURE_RUNTIME_PREFIX)
    requires LastDeploy(full, |full| - 1) == Some(i) && i < |full|
    requires full[AfterReturn(full, i)..] == runtime && StartsAt(runtime, 0, RUNTIME_PREFIX)
    ensures Extract(full) == Ok(Cut(runtime))
  {
    CutKeepsPrefix(runtime);
  }

  lemma FrontEndsInDeploy(prologue: Code, push: Byte, operand: Byte, separated: bool)
    ensures var front, i := Front(prologue, push, operand, separated), |prologue| + 2;
            && i < |front| && front[i] == RETURN && front[i - 2] == push
            && (|front| == i + 1 || (|front| == i + 2 && front[i + 1] == INVALID))
  {
  }

  /** A RETURN at the third byte is not looked at. */
  lemma NothingBeforeTheFourth(front: Code, runtime: Code)
    requires |front| == 3 || (|front| == 4 && front[3] == INVALID)
    requires StartsAt(runtime, 0, RUNTIME_PREFIX)
    requires forall r :: 2 <= r < |runtime| ==> !DeploysAt(runtime, r)
    ensures LastDeploy(front + runtime, |front| + |runtime| - 1) == None
  {
    NothingDeploysBehind(front, 2, runtime);
    LastDeployIsLast(front + runtime, |front| + |runtime| - 1);
  }

  /**
   Extraction undoes the layout: for every prologue and every runtime that has no
   deployment pattern of its own, it returns the runtime without its metadata;
   but without a prologue it finds nothing, and code that looks like runtime code
   from the start is returned whole.
   */
  lemma ExtractInvertsCreation(prologue: Code, push: Byte, operand: Byte, separated: bool, runtime: Code)
    requires 0x60 <= push <= 0x7f
    requires |runtime| >= 4 && runtime[..4] == [0x60, 0x80, 0x60, 0x40]
    requires forall r :: 2 <= r < |runtime| ==> !DeploysAt(runtime, r)
    ensures var full := Creation(prologue, push, operand, separated, runtime);
            Extract(full)
            == if full[..7] == [0x60, 0x80, 0x60, 0x40, 0x52, 0x34, 0x80] then Ok(full)
               else if prologue == [] then Err(NoReturn)
               else Ok(Cut(runtime))
  {
    var front := Front(prologue, push, operand, separated);
    var full := front + runtime;
    assert full[0..7] == full[..7];
    assert runtime[0..4] == runtime[..4];
    FrontEndsInDeploy(prologue, push, operand, separated);
    if prologue == [] {
      NothingBeforeTheFourth(front, runtime);
    } else if full[..7] != PURE_RUNTIME_PREFIX {
      LastDeployIsTheFirstOne(front, |prologue| + 2, runtime);
      assert full[|front|..] == runtime;
      ExtractsBehind(full, |prologue| + 2, runtime);
    }
  }

  /** The CBOR metadata header as compilers emit it, in binary. */
  const BINARY_MARKER: Code := [0xa2, 0x64, 0x69, 0x70, 0x66, 0x73, 0x58, 0x22, 0x12, 0x20]

  ghost predicate HasMarker(code: Code) {
    exists p: nat :: StartsAt(code, p, MARKER)
  }

  /** Cutting leaves code alone if and only if no marker occurs in it. */
  lemma CutIsIdentityIff(code: Code)
    ensures Cut(code) == code <==> !HasMarker(code)
  {
    LastMarkerIsLast(code, |code|);
    match LastMarker(code, |code|)
    case None =>
    case Some(p) => assert |code[..p]| == p < |code|;
  }

  /** The text of the marker shares no byte with the binary header, so it cannot reach into it. */
  lemma MarkerAvoidsHeader(body: Code, rest: Code, p: nat)
    requires p < |body| + |BINARY_MARKER| && p + |MARKER| > |body|
    ensures !StartsAt(body + BINARY_MARKER + rest, p, MARKER)
  {
    var code := body + BINARY_MARKER + rest;
    if p + |MARKER| <= |code| {
      var at := if p < |body| then |body| else p;
      assert code[p..p + |MARKER|][at - p] == code[at] == BINARY_MARKER[at - |body|];
    }
  }

  lemma MarkerInFront(body: Code, tail: Code, p: nat)
    requires p + |MARKER| <= |body|
    ensures StartsAt(body + tail, p, MARKER) <==> StartsAt(body, p, MARKER)
  {
    assert (body + tail)[p..p + |MARKER|] == body[p..p + |MARKER|];
  }

  lemma MarkerOnEitherSide(body: Code, rest: Code)
    ensures HasMarker(body + BINARY_MARKER + rest) <==> HasMarker(body) || HasMarker(rest)
  {
    var head := body + BINARY_MARKER;
    forall p: nat
      ensures StartsAt(head + rest, p, MARKER)
              <==> if p < |head| then StartsAt(body, p, MARKER) else StartsAt(rest, p - |head|, MARKER)
    {
      if p + |MARKER| <= |body| {
        assert head + rest == body + (BINARY_MARKER + rest);
        MarkerInFront(body, BINARY_MARKER + rest, p);
      } else if p < |head| {
        MarkerAvoidsHeader(body, rest, p);
      } else {
        StartsShifts(head, rest, p - |head|, MARKER);
      }
    }
    if HasMarker(body) {
      var p: nat :| StartsAt(body, p, MARKER);
      assert StartsAt(head + rest, p, MARKER);
    }
    if HasMarker(rest) {
      var p: nat :| StartsAt(rest, p, MARKER);
      assert StartsAt(rest, |head| + p - |head|, MARKER);
      assert StartsAt(head + rest, |head| + p, MARKER);
    }
  }

  /**
   The marker is the hexadecimal text of the binary header, not the header: code
   is returned with its metadata, the header and whatever follows it, for all
   code and metadata in which that text does not occur by itself.
   */
  lemma BinaryMetadataIsKept(body: Code, rest: Code)
    ensures Cut(body + BINARY_MARKER + rest) == body + BINARY_MARKER + rest
            <==> !HasMarker(body) && !HasMarker(rest)
  {
    CutIsIdentityIff(body + BINARY_MARKER + rest);
    MarkerOnEitherSide(body, rest);
  }

  /** So extraction gives back a deployed contract with its binary metadata, exactly then. */
  lemma ExtractionKeepsBinaryMetadata(prologue: Code, push: Byte, operand: Byte, separated: bool,
                                      body: Code, rest: Code)
    requires prologue != [] && IsPush(push)
    requires var runtime := body + BINARY_MARKER + rest;
             && StartsAt(runtime, 0, RUNTIME_PREFIX)
             && (forall r :: 2 <= r < |runtime| ==> !DeploysAt(runtime, r))
             && !StartsAt(Creation(prologue, push, operand, separated, runtime), 0, PURE_RUNTIME_PREFIX)
    ensures var runtime := body + BINARY_MARKER + rest;
            Extract(Creation(prologue, push, operand, separated, runtime)) == Ok(runtime)
            <==> !HasMarker(body) && !HasMarker(rest)
  {
    ExtractInvertsCreation(prologue, push, operand, separated, body + BINARY_MARKER + rest);
    BinaryMetadataIsKept(body, rest);
  }
}
