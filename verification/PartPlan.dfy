/** Cutting an upload into parts: the agent's two planners, the ranges it
    presigns, and the client's check of them (cmd/relkit-agent/staged_upload.go,
    cmd/relkit-agent/cas_upload.go, internal/backends/s3_compatible.go,
    internal/casput/client.go). */
module PartPlan {
  import opened Wrappers

  /** The part limits; loadConfig refuses any that break Sane. */
  datatype Limits = Limits(partSize: int, minPartSize: int, maxPartSize: int, maxParts: int) {
    predicate Sane() {
      1 <= minPartSize <= partSize <= maxPartSize && 1 <= maxParts
    }
  }

  function Parts(total: int, size: int): int
    requires 1 <= size
  {
    (total + size - 1) / size
  }

  // ---------------------------------------------------------------------
  // Arithmetic of rounding up
  // ---------------------------------------------------------------------

  /** The number of parts is the least n with total <= n * size. */
  lemma PartsIsCeiling(total: int, size: int, n: int)
    requires 1 <= size
    ensures Parts(total, size) <= n <==> total <= n * size
  {
    var q := Parts(total, size);
    assert total + size - 1 == q * size + (total + size - 1) % size;
    assert total <= q * size < total + size;
    if n < q {
      assert n * size <= (q - 1) * size == q * size - size by {
        MulMonotone(n, q - 1, size);
      }
    } else {
      MulMonotone(q, n, size);
    }
  }

  lemma MulMonotone(a: int, b: int, size: int)
    requires a <= b && 0 <= size
    ensures a * size <= b * size
  {}

  /** Raising the part size to total / maxParts, rounded up, is the least that
      fits, and it exceeds the maximum exactly when nothing can fit. */
  lemma CeilingFits(total: int, limits: Limits)
    requires limits.Sane()
    ensures var size := Parts(total, limits.maxParts);
      && (limits.maxPartSize < size <==> limits.maxParts * limits.maxPartSize < total)
      && (1 <= size ==> Parts(total, size) <= limits.maxParts)
  {
    var size := Parts(total, limits.maxParts);
    PartsIsCeiling(total, limits.maxParts, limits.maxPartSize);
    PartsIsCeiling(total, limits.maxParts, size);
    assert limits.maxParts * limits.maxPartSize == limits.maxPartSize * limits.maxParts;
    if 1 <= size {
      PartsIsCeiling(total, size, limits.maxParts);
      assert limits.maxParts * size == size * limits.maxParts;
    }
  }

  /** A size that needs too many parts is below the ceiling. */
  lemma TooManyPartsIsTooSmall(total: int, size: int, limits: Limits)
    requires limits.Sane() && 1 <= size
    ensures limits.maxParts < Parts(total, size) <==> size < Parts(total, limits.maxParts)
  {
    PartsIsCeiling(total, size, limits.maxParts);
    PartsIsCeiling(total, limits.maxParts, size);
    assert limits.maxParts * size == size * limits.maxParts;
  }

  // ---------------------------------------------------------------------
  // The planners
  // ---------------------------------------------------------------------

  /** The size asked for, clamped to the limits. */
  function Clamp(limits: Limits, size: int): (clamped: int)
    requires limits.Sane()
    ensures limits.minPartSize <= clamped <= limits.maxPartSize
    ensures limits.minPartSize <= size <= limits.maxPartSize ==> clamped == size
    ensures size < limits.minPartSize ==> clamped == limits.minPartSize
  {
    var raised := if size < limits.minPartSize then limits.minPartSize else size;
    if raised > limits.maxPartSize then limits.maxPartSize else raised
  }

  /** A staged upload's part size. It fails exactly for objects no allowed part
      size can carry; otherwise it is the clamped request, lowered to the object
      or raised just enough to fit. */
  method ResolvePartSize(limits: Limits, requested: Option<int>, total: int) returns (r: Result<int, string>)
    requires limits.Sane() && 1 <= total
    ensures r.Err? <==> limits.maxParts * limits.maxPartSize < total
    ensures r.Ok? ==> 1 <= r.value <= limits.maxPartSize && r.value <= total
    ensures r.Ok? ==> 1 <= Parts(total, r.value) <= limits.maxParts
    ensures r.Ok? ==>
      var wanted := Clamp(limits, if requested.Some? then requested.value else limits.partSize);
      if total <= wanted then r.value == total
      else if Parts(total, wanted) <= limits.maxParts then r.value == wanted
      else r.value > wanted && forall size | 1 <= size < r.value :: limits.maxParts < Parts(total, size)
  {
    hide Parts;
    var size := limits.partSize;
    if requested.Some? {
      size := requested.value;
    }
    if size < limits.minPartSize {
      size := limits.minPartSize;
    }
    if size > limits.maxPartSize {
      size := limits.maxPartSize;
    }
    ghost var wanted := size;
    if total < size {
      size := total;
    }
    var partCount := Parts(total, size);
    CeilingFits(total, limits);
    TooManyPartsIsTooSmall(total, size, limits);
    PartsIsCeiling(total, size, 0);
    PartsIsCeiling(total, size, 1);
    if partCount > limits.maxParts {
      size := Parts(total, limits.maxParts);
      if size > limits.maxPartSize {
        return Err("object needs too many parts at maxPartSize");
      }
      if size < 1 {
        size := 1;
      }
      forall smaller | 1 <= smaller < size
        ensures limits.maxParts < Parts(total, smaller)
      {
        TooManyPartsIsTooSmall(total, smaller, limits);
      }
      PartsIsCeiling(total, size, 0);
      PartsIsCeiling(total, limits.maxParts, total);
      MulMonotone(1, limits.maxParts, total);
    }
    r := Ok(size);
  }

  datatype Plan = Plan(partSize: int, multipart: bool)

  /** A CAS upload's plan: single when the object fits one part, otherwise a part
      size within both bounds; it fails for the same objects. */
  method CasMultipartPlan(limits: Limits, requested: int, total: int) returns (r: Result<Plan, string>)
    requires limits.Sane() && 0 <= total
    ensures r.Err? <==> limits.maxParts * limits.maxPartSize < total
    ensures r.Ok? ==> limits.minPartSize <= r.value.partSize <= limits.maxPartSize
    ensures r.Ok? ==> (r.value.multipart <==> r.value.partSize < total)
    ensures r.Ok? && r.value.multipart ==> 2 <= Parts(total, r.value.partSize) <= limits.maxParts
    ensures r.Ok? ==>
      var wanted := Clamp(limits, if requested <= 0 then limits.partSize else requested);
      if total <= wanted || Parts(total, wanted) <= limits.maxParts then r.value.partSize == wanted
      else (r.value.partSize > wanted &&
            forall size | 1 <= size < r.value.partSize :: limits.maxParts < Parts(total, size))
  {
    hide Parts;
    var partSize := requested;
    if partSize <= 0 {
      partSize := limits.partSize;
    }
    if partSize < limits.minPartSize {
      partSize := limits.minPartSize;
    }
    if limits.maxPartSize > 0 && partSize > limits.maxPartSize {
      partSize := limits.maxPartSize;
    }
    CeilingFits(total, limits);
    TooManyPartsIsTooSmall(total, partSize, limits);
    PartsIsCeiling(total, partSize, 1);
    if total <= partSize {
      return Ok(Plan(partSize, false));
    }
    var parts := Parts(total, partSize);
    if limits.maxParts > 0 && parts > limits.maxParts {
      partSize := Parts(total, limits.maxParts);
      if partSize < limits.minPartSize {
        partSize := limits.minPartSize;
      }
      if partSize > limits.maxPartSize {
        return Err("object needs too many parts at maxPartSize");
      }
      forall smaller | 1 <= smaller < partSize
        ensures limits.maxParts < Parts(total, smaller)
      {
        TooManyPartsIsTooSmall(total, smaller, limits);
      }
      PartsIsCeiling(total, partSize, 1);
      if total <= partSize {
        return Ok(Plan(partSize, false));
      }
    }
    r := Ok(Plan(partSize, true));
  }

  // ---------------------------------------------------------------------
  // Part lengths
  // ---------------------------------------------------------------------

  function PartLength(part: int, partCount: int, partSize: int, total: int): int {
    if part < 0 || part >= partCount then 0
    else if part == partCount - 1 then total - partSize * part
    else partSize
  }

  ghost function LengthOfFirst(n: nat, partCount: int, partSize: int, total: int): int {
    if n == 0 then 0
    else LengthOfFirst(n - 1, partCount, partSize, total) + PartLength(n - 1, partCount, partSize, total)
  }

  lemma {:induction false} FirstPartsAreFull(n: nat, partCount: int, partSize: int, total: int)
    requires n < partCount
    ensures LengthOfFirst(n, partCount, partSize, total) == partSize * n
  {
    if n > 0 {
      FirstPartsAreFull(n - 1, partCount, partSize, total);
      assert partSize * n == partSize * (n - 1) + partSize;
    }
  }

  /** Cut by its planned part size, an object's parts are each non-empty and no
      longer than the part size, and together as long as the object. */
  lemma PartsTile(partSize: int, total: int)
    requires 1 <= partSize && 1 <= total
    ensures var count := Parts(total, partSize);
      && 1 <= count
      && (forall i | 0 <= i < count :: 1 <= PartLength(i, count, partSize, total) <= partSize)
      && LengthOfFirst(count, count, partSize, total) == total
  {
    var count := Parts(total, partSize);
    PartsIsCeiling(total, partSize, 0);
    PartsIsCeiling(total, partSize, count);
    PartsIsCeiling(total, partSize, count - 1);
    assert partSize * (count - 1) == (count - 1) * partSize == count * partSize - partSize;
    FirstPartsAreFull(count - 1, count, partSize, total);
  }

  // ---------------------------------------------------------------------
  // The presigned ranges, and the client's check
  // ---------------------------------------------------------------------

  /** One presigned request; `absolute` says its URL parses as absolute http(s). */
  datatype Request = Request(verb: string, absolute: bool, offset: int, length: int)

  datatype Upload = Upload(size: int, uploadId: string, requests: seq<Request>)

  const MAX_S3_PARTS := 10_000

  /** The request for part i of an object cut by partSize. */
  function RangeAt(size: int, partSize: int, i: int): Request
    requires 1 <= partSize
  {
    Request("PUT", true, i * partSize, PartLength(i, Parts(size, partSize), partSize, size))
  }

  ghost predicate Ranges(size: int, partSize: int, n: nat, requests: seq<Request>)
    requires 1 <= partSize
  {
    |requests| == n && forall i | 0 <= i < n :: requests[i] == RangeAt(size, partSize, i)
  }

  /** Where the offset stands after n parts. */
  function OffsetAfter(size: int, partSize: int, n: int): int
    requires 1 <= partSize
  {
    if n < Parts(size, partSize) then n * partSize else size
  }

  /** One turn of the range loop: the length it takes is the part's length. */
  lemma NextRange(size: int, partSize: int, n: nat)
    requires 1 <= partSize && 1 <= size && n <= Parts(size, partSize)
    ensures OffsetAfter(size, partSize, n) < size <==> n < Parts(size, partSize)
    ensures n < Parts(size, partSize) ==>
      var length := if n * partSize + partSize > size then size - n * partSize else partSize;
      && length == PartLength(n, Parts(size, partSize), partSize, size) && 1 <= length
      && n * partSize + length == OffsetAfter(size, partSize, n + 1)
  {
    hide Parts;
    PartsIsCeiling(size, partSize, n);
    PartsIsCeiling(size, partSize, n + 1);
    assert (n + 1) * partSize == n * partSize + partSize;
    assert partSize * n == n * partSize;
  }

  /** Opening a multipart upload and presigning every part. `started` is the id
      the store gave, if it gave one; `credentials` and `presigned` say which of
      the later steps succeed. An upload that was opened is either returned
      whole or aborted. */
  method AuthorizeCasMultipart(
    size: int, partSize: int, started: Option<string>, credentials: bool, presigned: int -> bool)
    returns (r: Result<Upload, string>, aborted: bool)
    ensures r.Ok? <==>
      && 1 <= partSize < size && Parts(size, partSize) <= MAX_S3_PARTS
      && started.Some? && credentials && forall n | 1 <= n <= Parts(size, partSize) :: presigned(n)
    ensures r.Ok? ==>
      && r.value.size == size && r.value.uploadId == started.value
      && Ranges(size, partSize, Parts(size, partSize), r.value.requests)
    ensures aborted <==> r.Err? && started.Some? && 1 <= partSize < size && Parts(size, partSize) <= MAX_S3_PARTS
  {
    aborted := false;
    if partSize < 1 || size <= partSize {
      return Err("multipart CAS upload requires partSize < size"), false;
    }
    var parts := (size + partSize - 1) / partSize;
    if parts > MAX_S3_PARTS {
      return Err("CAS object needs too many parts"), false;
    }
    if started.None? {
      return Err("multipart initiate failed"), false;
    }
    if !credentials {
      return Err("no credentials"), true;
    }
    var requests: seq<Request> := [];
    var offset := 0;
    var partNumber := 1;
    NextRange(size, partSize, 0);
    while offset < size
      invariant partNumber == |requests| + 1 && |requests| <= parts
      invariant Ranges(size, partSize, |requests|, requests)
      invariant offset == OffsetAfter(size, partSize, |requests|)
      invariant offset < size <==> |requests| < parts
      invariant forall n | 1 <= n < partNumber :: presigned(n)
      decreases size - offset
    {
      NextRange(size, partSize, |requests|);
      NextRange(size, partSize, |requests| + 1);
      var length := partSize;
      if offset + length > size {
        length := size - offset;
      }
      if !presigned(partNumber) {
        return Err("presign failed"), true;
      }
      requests := requests + [Request("PUT", true, offset, length)];
      offset := offset + length;
      partNumber := partNumber + 1;
    }
    r := Ok(Upload(size, started.value, requests));
  }

  function Upper(c: char): char {
    if 'a' <= c <= 'z' then c - 'a' + 'A' else c
  }

  /** No method, or PUT in any case. */
  predicate IsPut(verb: string) {
    verb == "" || (|verb| == 3 && [Upper(verb[0]), Upper(verb[1]), Upper(verb[2])] == "PUT")
  }

  ghost function Covered(requests: seq<Request>, n: nat): int
    requires n <= |requests|
  {
    if n == 0 then 0 else Covered(requests, n - 1) + requests[n - 1].length
  }

  ghost predicate RequestOk(item: Upload, i: nat)
    requires i < |item.requests|
  {
    var req := item.requests[i];
    && IsPut(req.verb) && req.absolute
    && (item.uploadId != "" ==> req.length >= 1 && req.offset == Covered(item.requests, i))
  }

  /** A descriptor the client can carry out: one whole PUT, or PUTs of
      consecutive non-empty ranges that cover the blob exactly. */
  ghost predicate Acceptable(item: Upload) {
    && item.requests != []
    && (forall i | 0 <= i < |item.requests| :: RequestOk(item, i))
    && if item.uploadId == "" then |item.requests| == 1
       else Covered(item.requests, |item.requests|) == item.size
  }

  /** Each range begins where the one before it ends. */
  ghost predicate Consecutive(requests: seq<Request>) {
    forall i | 0 < i < |requests| :: requests[i].offset == requests[i - 1].offset + requests[i - 1].length
  }

  lemma {:induction false} CoveredIsOffset(requests: seq<Request>, n: nat)
    requires 0 < n <= |requests| && requests[0].offset == 0 && Consecutive(requests)
    ensures Covered(requests, n) == requests[n - 1].offset + requests[n - 1].length
    ensures Covered(requests, n - 1) == requests[n - 1].offset
  {
    if n > 1 {
      CoveredIsOffset(requests, n - 1);
    }
  }

  /** PUTs of non-empty ranges that follow one another from the first byte of the
      blob to its last. */
  ghost predicate Tiles(item: Upload) {
    var requests := item.requests;
    && requests != []
    && (forall i | 0 <= i < |requests| ::
          IsPut(requests[i].verb) && requests[i].absolute && requests[i].length >= 1)
    && requests[0].offset == 0 && Consecutive(requests)
    && requests[|requests| - 1].offset + requests[|requests| - 1].length == item.size
  }

  lemma TilesAreAcceptable(item: Upload)
    requires item.uploadId != "" && Tiles(item)
    ensures Acceptable(item)
  {
    hide Covered, IsPut;
    forall i | 0 <= i < |item.requests|
      ensures RequestOk(item, i)
    {
      CoveredIsOffset(item.requests, i + 1);
    }
    CoveredIsOffset(item.requests, |item.requests|);
  }

  lemma AcceptableIsConsecutive(item: Upload, i: nat)
    requires item.uploadId != "" && Acceptable(item) && i < |item.requests|
    ensures item.requests[i].length >= 1 && IsPut(item.requests[i].verb) && item.requests[i].absolute
    ensures item.requests[i].offset ==
      if i == 0 then 0 else item.requests[i - 1].offset + item.requests[i - 1].length
    ensures Covered(item.requests, i + 1) == item.requests[i].offset + item.requests[i].length
  {
    hide IsPut;
    assert RequestOk(item, i);
    if i > 0 {
      assert RequestOk(item, i - 1);
    }
  }

  /** The descriptor of a multipart upload is acceptable exactly if it tiles the
      blob. */
  lemma AcceptableTiles(item: Upload)
    requires item.uploadId != ""
    ensures Acceptable(item) <==> Tiles(item)
  {
    hide Covered, IsPut, RequestOk;
    if Tiles(item) {
      TilesAreAcceptable(item);
    }
    if Acceptable(item) {
      forall i | 0 <= i < |item.requests| {
        AcceptableIsConsecutive(item, i);
      }
      AcceptableIsConsecutive(item, |item.requests| - 1);
    }
  }

  /** The same descriptor with every method spelled out. */
  ghost predicate IsNormalized(item: Upload, normalized: Upload) {
    && normalized.(requests := item.requests) == item
    && |normalized.requests| == |item.requests|
    && forall i | 0 <= i < |item.requests| :: normalized.requests[i] == item.requests[i].(verb := "PUT")
  }

  method NormalizeUpload(item: Upload) returns (r: Result<Upload, string>)
    ensures r.Ok? <==> Acceptable(item)
    ensures r.Ok? ==> IsNormalized(item, r.value)
  {
    if |item.requests| == 0 {
      return Err("no requests");
    }
    if item.uploadId == "" && |item.requests| != 1 {
      return Err("only one-request uploads without an upload id");
    }
    var covered := 0;
    var requests: seq<Request> := [];
    for i := 0 to |item.requests|
      invariant |requests| == i
      invariant forall j | 0 <= j < i :: requests[j] == item.requests[j].(verb := "PUT")
      invariant forall j | 0 <= j < i :: RequestOk(item, j)
      invariant item.uploadId != "" ==> covered == Covered(item.requests, i)
    {
      var req := item.requests[i];
      assert RequestOk(item, i) ==> IsPut(req.verb) && req.absolute;
      if !IsPut(req.verb) {
        return Err("unsupported CAS method");
      }
      if !req.absolute {
        return Err("CAS upload URL must be an absolute http(s) URL");
      }
      requests := requests + [req.(verb := "PUT")];
      if item.uploadId == "" {
        continue;
      }
      if req.length < 1 {
        return Err("CAS part is missing a length");
      }
      if req.offset != covered {
        return Err("CAS parts must cover the blob in order");
      }
      covered := covered + req.length;
    }
    if item.uploadId != "" && covered != item.size {
      return Err("CAS parts do not cover the blob");
    }
    r := Ok(item.(requests := requests));
  }

  lemma {:induction false} RangesCover(size: int, partSize: int, requests: seq<Request>, n: nat)
    requires 1 <= partSize && 1 <= size && Ranges(size, partSize, Parts(size, partSize), requests)
    requires n <= |requests|
    ensures Covered(requests, n) == if n < |requests| then n * partSize else size
  {
    if n > 0 {
      RangesCover(size, partSize, requests, n - 1);
      assert n * partSize == (n - 1) * partSize + partSize;
      assert partSize * (n - 1) == (n - 1) * partSize;
    } else {
      PartsIsCeiling(size, partSize, 0);
    }
  }

  /** Server and client agree: the ranges presigned for any object and part size
      are consecutive, cover the object, and pass the client's check. */
  lemma PresignedRangesAreAcceptable(size: int, partSize: int, upload: Upload)
    requires 1 <= partSize < size && upload.size == size && upload.uploadId != ""
    requires Ranges(size, partSize, Parts(size, partSize), upload.requests)
    ensures Acceptable(upload)
  {
    PartsTile(partSize, size);
    RangesCover(size, partSize, upload.requests, |upload.requests|);
    forall i | 0 <= i < |upload.requests|
      ensures RequestOk(upload, i)
    {
      RangesCover(size, partSize, upload.requests, i);
    }
  }
}
