/** `bsdiffmain`: build the patch that turns old into new. */
module DiffBuild {
  import opened Common
  import opened SuffixArray
  import opened DiffScan
  import opened DiffExtend
  import opened PatchFormat
  import opened PatchStream

  /** lf and lb are the best extensions of the last match and of the new one. */
  ghost predicate Extended(base: seq<byte>, target: seq<byte>, lastscan: int, lastpos: int, scan: int, pos: int,
                           lf: int, lb: int) {
    && 0 <= lastscan <= scan <= |target| && 0 <= lastpos <= |base| && 0 <= pos <= |base|
    && BestForward(base, target, lastpos, lastscan, lf, Min(scan - lastscan, |base| - lastpos))
    && if scan < |target| then BestBackward(base, target, pos, scan, lb, Min(scan - lastscan, pos)) else lb == 0
  }

  /** lenf and lenb are the extensions once an overlap has been divided at its
      best point. */
  ghost predicate Divided(base: seq<byte>, target: seq<byte>, lastscan: int, lastpos: int, scan: int, pos: int,
                          lf: int, lb: int, lenf: int, lenb: int)
    requires Extended(base, target, lastscan, lastpos, scan, pos, lf, lb)
  {
    var overlap := lastscan + lf - (scan - lb);
    if overlap <= 0 then lenf == lf && lenb == lb
    else
      var lens := lenf - (lf - overlap);
      && lenb == lb - lens
      && BestDivision(base, target, lastpos + lf - overlap, pos - lb, scan - lb, overlap, lens)
  }

  /** What the emitted triple needs of the two lengths. */
  predicate Fits(base: seq<byte>, target: seq<byte>, lastscan: int, lastpos: int, scan: int, pos: int, lenf: int,
    lenb: int) {
    && 0 <= lenf && 0 <= lenb <= pos <= |base| && 0 <= lastscan && lastscan + lenf <= scan - lenb && scan <= |target|
    && 0 <= lastpos && lastpos + lenf <= |base|
    && (scan == |target| ==> lenb == 0)
  }

  /** How far the last match reaches forward and the new one back. */
  method ChooseLengths(base: seq<byte>, target: seq<byte>, lastscan: int, lastpos: int, scan: int, pos: int)
    returns (lenf: int, lenb: int, ghost lf: int, ghost lb: int)
    requires 0 <= lastpos <= |base| && 0 <= lastscan <= scan <= |target| && 0 <= pos <= |base|
    ensures Extended(base, target, lastscan, lastpos, scan, pos, lf, lb)
    ensures Divided(base, target, lastscan, lastpos, scan, pos, lf, lb, lenf, lenb)
    ensures Fits(base, target, lastscan, lastpos, scan, pos, lenf, lenb)
  {
    hide Gain, GainBack, Shared;
    lenf := ExtendForward(base, target, lastpos, lastscan, scan);
    lenb := 0;
    if scan < |target| {
      lenb := ExtendBackward(base, target, pos, scan, lastscan);
    }
    lf, lb := lenf, lenb;
    if lastscan + lenf > scan - lenb {
      var overlap := (lastscan + lenf) - (scan - lenb);
      var lens := DivideOverlap(base, target, lastpos + lenf - overlap, pos - lenb, scan - lenb, overlap);
      lenf := lenf + lens - overlap;
      lenb := lenb - lens;
    }
  }

  /** Append difference bytes to db. */
  method EmitDiff(db: array<byte>, dblen: int, base: seq<byte>, target: seq<byte>, lastpos: int, lastscan: int,
                  lenf: int)
    requires 0 <= lenf && 0 <= lastpos && lastpos + lenf <= |base| && 0 <= lastscan && lastscan + lenf <= |target|
    requires 0 <= dblen && dblen + lenf <= db.Length
    modifies db
    ensures db[..dblen + lenf] == old(db[..dblen]) + DiffBytes(base, target, lastpos, lastscan, lenf)
  {
    for i := 0 to lenf
      invariant db[..dblen] == old(db[..dblen])
      invariant forall k :: 0 <= k < i ==> db[dblen + k] == DiffBytes(base, target, lastpos, lastscan, lenf)[k]
    {
      db[dblen + i] := ((target[lastscan + i] as int) - base[lastpos + i]) % 256;
    }
    assert db[..dblen + lenf] == db[..dblen] + db[dblen..dblen + lenf];
  }

  /** Append new bytes to eb. */
  method EmitExtra(eb: array<byte>, eblen: int, target: seq<byte>, t: int, n: int)
    requires 0 <= n && 0 <= t && t + n <= |target| && 0 <= eblen && eblen + n <= eb.Length
    modifies eb
    ensures eb[..eblen + n] == old(eb[..eblen]) + target[t..t + n]
  {
    for i := 0 to n
      invariant eb[..eblen] == old(eb[..eblen])
      invariant forall j :: eblen <= j < eblen + i ==> eb[j] == target[t + j - eblen]
    {
      eb[eblen + i] := target[t + i];
    }
    assert eb[eblen..eblen + n] == target[t..t + n];
    assert eb[..eblen + n] == eb[..eblen] + eb[eblen..eblen + n];
  }

  /** The control bytes written so far, behind a header still to be filled in. */
  ghost function Written(target: seq<byte>, c: seq<Triple>): seq<byte> {
    Header(0, 0, 0, |target|) + EncodeAll(Flatten(c))
  }

  /** What holds whenever a segment has been emitted: the patch so far encodes
      the new data up to lastscan, and the stream holds its triples. */
  ghost predicate Building(base: seq<byte>, target: seq<byte>, c: seq<Triple>, diff: seq<byte>, extra: seq<byte>,
                           data: seq<byte>, lastscan: int, lastpos: int) {
    && Encodes(base, target, c, diff, extra, lastscan)
    && 0 <= lastscan <= |target| && 0 <= lastpos <= |base|
    && OldPos(c) == lastpos
    && data == Written(target, c)
  }

  function TripleFor(lastscan: int, lastpos: int, scan: int, pos: int, lenf: int, lenb: int): Triple {
    Triple(lenf, (scan - lenb) - (lastscan + lenf), (pos - lenb) - (lastpos + lenf))
  }

  lemma WrittenAppend(target: seq<byte>, c: seq<Triple>, x: Triple)
    ensures Written(target, c + [x]) == Written(target, c) + Encode(x.diff) + Encode(x.extra) + Encode(x.seek)
  {
    hide Encode, Header;
    var f := Flatten(c);
    assert (c + [x])[..|c|] == c;
    assert Flatten(c + [x]) == f + [x.diff] + [x.extra] + [x.seek];
    EncodeAllAppend(f, x.diff);
    EncodeAllAppend(f + [x.diff], x.extra);
    EncodeAllAppend(f + [x.diff] + [x.extra], x.seek);
  }

  lemma BuildingAppend(base: seq<byte>, target: seq<byte>, c: seq<Triple>, diff: seq<byte>, extra: seq<byte>,
                       data: seq<byte>,
                       lastscan: int, lastpos: int, scan: int, pos: int, lenf: int, lenb: int)
    requires Building(base, target, c, diff, extra, data, lastscan, lastpos)
    requires Fits(base, target, lastscan, lastpos, scan, pos, lenf, lenb)
    ensures var x := TripleFor(lastscan, lastpos, scan, pos, lenf, lenb);
            Building(base, target, c + [x], diff + DiffBytes(base, target, lastpos, lastscan, lenf),
                     extra + target[lastscan + lenf..scan - lenb],
                     data + Encode(x.diff) + Encode(x.extra) + Encode(x.seek), scan - lenb, pos - lenb)
  {
    hide Encode, Encodes, Written;
    var x := TripleFor(lastscan, lastpos, scan, pos, lenf, lenb);
    EncodesAppend(base, target, c, diff, extra, lastscan, x);
    WrittenAppend(target, c, x);
  }

  method WriteTriple(out: OutputStream, x: Triple)
    requires out.Valid() && out.pos == |out.data|
    modifies out
    ensures out.Valid() && out.pos == |out.data|
    ensures out.data == old(out.data) + Encode(x.diff) + Encode(x.extra) + Encode(x.seek)
  {
    hide Encode;
    OverwriteAtEnd(out.data, Encode(x.diff));
    out.WriteInt32(x.diff);
    OverwriteAtEnd(out.data, Encode(x.extra));
    out.WriteInt32(x.extra);
    OverwriteAtEnd(out.data, Encode(x.seek));
    out.WriteInt32(x.seek);
  }

  lemma BuildingLengths(base: seq<byte>, target: seq<byte>, c: seq<Triple>, diff: seq<byte>, extra: seq<byte>,
                        data: seq<byte>, lastscan: int, lastpos: int)
    requires Building(base, target, c, diff, extra, data, lastscan, lastpos)
    ensures |diff| + |extra| == lastscan <= |target| && 0 <= lastpos <= |base|
  {
  }

  /** Emit one segment: choose its lengths, append its bytes, write its triple. */
  method EmitSegment(base: seq<byte>, target: seq<byte>, lastscan: int, lastpos: int, scan: int, pos: int,
                     db: array<byte>, dblen: int, eb: array<byte>, eblen: int, out: OutputStream, ghost c: seq<Triple>)
    returns (lenf: int, lenb: int, ghost lf: int, ghost lb: int)
    requires db != eb && db.Length == eb.Length == |target| + 1 && 0 <= dblen <= |target| && 0 <= eblen <= |target|
    requires Building(base, target, c, db[..dblen], eb[..eblen], out.data, lastscan, lastpos)
    requires lastscan <= scan <= |target| && 0 <= pos <= |base|
    requires out.Valid() && out.pos == |out.data|
    modifies db, eb, out
    ensures out.Valid() && out.pos == |out.data|
    ensures Extended(base, target, lastscan, lastpos, scan, pos, lf, lb)
    ensures Divided(base, target, lastscan, lastpos, scan, pos, lf, lb, lenf, lenb)
    ensures Fits(base, target, lastscan, lastpos, scan, pos, lenf, lenb)
    ensures 0 <= dblen + lenf <= |target| && 0 <= eblen + (scan - lenb) - (lastscan + lenf) <= |target|
    ensures Building(base, target, c + [TripleFor(lastscan, lastpos, scan, pos, lenf, lenb)],
                     db[..dblen + lenf], eb[..eblen + (scan - lenb) - (lastscan + lenf)], out.data, scan - lenb,
                       pos - lenb)
  {
    hide Encode, Building, Extended, Divided, DiffBytes;
    ghost var diff, extra, data := db[..dblen], eb[..eblen], out.data;
    BuildingLengths(base, target, c, diff, extra, data, lastscan, lastpos);
    lenf, lenb, lf, lb := ChooseLengths(base, target, lastscan, lastpos, scan, pos);
    BuildingAppend(base, target, c, diff, extra, data, lastscan, lastpos, scan, pos, lenf, lenb);
    EmitDiff(db, dblen, base, target, lastpos, lastscan, lenf);
    EmitExtra(eb, eblen, target, lastscan + lenf, (scan - lenb) - (lastscan + lenf));
    WriteTriple(out, TripleFor(lastscan, lastpos, scan, pos, lenf, lenb));
    assert eblen + (scan - lenb) - (lastscan + lenf) == eblen + ((scan - lenb) - (lastscan + lenf));
  }

  /** The variables that one round of the outer loop leaves to the next. */
  datatype Vars = Vars(scan: int, len: int, pos: int, lastscan: int, lastpos: int, lastoffset: int)

  /** A round: where its scan stopped, and the extensions chosen if it emitted. */
  datatype Round = Round(before: Vars, scan: int, len: int, pos: int, score: int, lf: int, lb: int, lenf: int,
                         lenb: int)

  /** A stop at a match that the last offset explains in full emits nothing,
      unless the data ends there. */
  predicate Emits(target: seq<byte>, r: Round) {
    r.len != r.score || r.scan == |target|
  }

  function After(target: seq<byte>, r: Round): Vars {
    if Emits(target, r) then Vars(r.scan, r.len, r.pos, r.scan - r.lenb, r.pos - r.lenb, r.pos - r.scan)
    else r.before.(scan := r.scan, len := r.len, pos := r.pos)
  }

  function Emitted(r: Round): Triple {
    TripleFor(r.before.lastscan, r.before.lastpos, r.scan, r.pos, r.lenf, r.lenb)
  }

  ghost predicate Justified(a: seq<int>, base: seq<byte>, target: seq<byte>, r: Round) {
    var v := r.before;
    && v.scan < |target|
    && Stopped(a, base, target, v.lastoffset, v.scan + v.len, r.scan, r.len, r.pos, r.score)
    && (v.scan + v.len == |target| ==> r.len == v.len && r.pos == v.pos)
    && (Emits(target, r) ==>
          && Extended(base, target, v.lastscan, v.lastpos, r.scan, r.pos, r.lf, r.lb)
          && Divided(base, target, v.lastscan, v.lastpos, r.scan, r.pos, r.lf, r.lb, r.lenf, r.lenb)
          && Fits(base, target, v.lastscan, v.lastpos, r.scan, r.pos, r.lenf, r.lenb))
  }

  /** The variables before round k. */
  function VarsAt(target: seq<byte>, rs: seq<Round>, k: nat): Vars
    requires k <= |rs|
  {
    if k == 0 then Vars(0, 0, 0, 0, 0, 0) else After(target, rs[k - 1])
  }

  /** The triples the rounds emit. */
  function Triples(target: seq<byte>, rs: seq<Round>): seq<Triple> {
    if rs == [] then []
    else
      var r := rs[|rs| - 1];
      Triples(target, rs[..|rs| - 1]) + if Emits(target, r) then [Emitted(r)] else []
  }

  /** The triples of a patch are those of a run of justified rounds, each
      going on from where the one before left the variables. */
  ghost predicate Explained(a: seq<int>, base: seq<byte>, target: seq<byte>, c: seq<Triple>, rs: seq<Round>) {
    && c == Triples(target, rs)
    && forall k :: 0 <= k < |rs| ==> Justified(a, base, target, rs[k]) && rs[k].before == VarsAt(target, rs, k)
  }

  /** The rounds go on to the end of the new data. */
  predicate Complete(target: seq<byte>, rs: seq<Round>) {
    VarsAt(target, rs, |rs|).scan == |target|
  }

  lemma ExplainedAppend(a: seq<int>, base: seq<byte>, target: seq<byte>, c: seq<Triple>, rs: seq<Round>, r: Round)
    requires Explained(a, base, target, c, rs)
    requires Justified(a, base, target, r) && r.before == VarsAt(target, rs, |rs|)
    ensures Explained(a, base, target, if Emits(target, r) then c + [Emitted(r)] else c, rs + [r])
    ensures VarsAt(target, rs + [r], |rs| + 1) == After(target, r)
  {
    hide Justified, Emitted, Emits;
    assert (rs + [r])[..|rs|] == rs;
    forall k | 0 <= k <= |rs| ensures (rs + [r])[k].before == VarsAt(target, rs + [r], k) {
      if k < |rs| { assert rs[k].before == VarsAt(target, rs, k); }
    }
  }

  /** The variables of the outer loop. */
  ghost predicate Scanning(base: seq<byte>, target: seq<byte>, c: seq<Triple>, diff: seq<byte>, extra: seq<byte>,
                           data: seq<byte>, v: Vars) {
    && Building(base, target, c, diff, extra, data, v.lastscan, v.lastpos)
    && 0 <= v.lastscan <= v.scan <= |target| && 0 <= v.len && 0 <= v.pos <= |base| && 0 <= v.scan + v.lastoffset
    && (v.scan < |target| ==> v.scan + v.len <= |target| && 9 * |c| <= v.scan + v.len && (v.scan == 0 || v.len > 0))
    && (v.scan == |target| ==> v.lastscan == v.scan && 9 * |c| <= |target| + 9)
  }

  /** The whole scan leaves every byte of the new data described. */
  method EmitAll(I: array<int>, base: seq<byte>, target: seq<byte>, db: array<byte>, eb: array<byte>, out: OutputStream)
    returns (controlSize: int, dblen: int, eblen: int, ghost c: seq<Triple>, ghost rs: seq<Round>)
    requires IsSuffixArray(base, I[..])
    requires db != eb && db.Length == eb.Length == |target| + 1
    requires out.Valid() && out.pos == |out.data| && out.data == Written(target, [])
    modifies db, eb, out
    ensures out.Valid() && out.pos == |out.data| && out.data == Written(target, c)
    ensures 0 <= dblen <= |target| && 0 <= eblen <= |target|
    ensures Encodes(base, target, c, db[..dblen], eb[..eblen], |target|)
    ensures Explained(I[..], base, target, c, rs) && Complete(target, rs)
    ensures controlSize == 12 * |c| && 9 * |c| <= |target| + 9
  {
    hide *;
    ghost var a := I[..];
    c, rs := [], [];
    NothingToExplain(a, base, target);
    controlSize := 0;
    dblen, eblen := 0, 0;
    var scan, len, pos := 0, 0, 0;
    var lastscan, lastpos, lastoffset := 0, 0, 0;
    ScanningStart(base, target, db[..0], eb[..0], out.data);
    while scan < |target|
      invariant I[..] == a && out.Valid() && out.pos == |out.data|
      invariant 0 <= dblen <= |target| && 0 <= eblen <= |target|
      invariant 0 <= scan <= |target|
      invariant Scanning(base, target, c, db[..dblen], eb[..eblen], out.data,
                         Vars(scan, len, pos, lastscan, lastpos, lastoffset))
      invariant controlSize == 12 * |c|
      invariant Explained(a, base, target, c, rs)
      invariant VarsAt(target, rs, |rs|) == Vars(scan, len, pos, lastscan, lastpos, lastoffset)
      decreases if scan < |target| then |target| + 1 - (scan + len) else 0
    {
      ghost var before, c0 := Vars(scan, len, pos, lastscan, lastpos, lastoffset), c;
      ScanningMeans(base, target, c, db[..dblen], eb[..eblen], out.data, before);
      var oldscore;
      scan, len, pos, oldscore := NextMatch(I, base, target, lastoffset, scan + len, len, pos);
      if scan < |target| {
        StoppedLength(a, base, target, lastoffset, before.scan + before.len, scan, len, pos, oldscore);
      }
      ghost var r := Round(before, scan, len, pos, oldscore, 0, 0, 0, 0);
      if len != oldscore || scan == |target| {
        var lenf, lenb;
        ghost var lf, lb;
        lenf, lenb, lf, lb := EmitSegment(base, target, lastscan, lastpos, scan, pos, db, dblen, eb, eblen, out, c);
        r := r.(lf := lf, lb := lb, lenf := lenf, lenb := lenb);
        c := c + [TripleFor(lastscan, lastpos, scan, pos, lenf, lenb)];
        dblen := dblen + lenf;
        eblen := eblen + (scan - lenb) - (lastscan + lenf);
        controlSize := controlSize + 12;
        ScanningEmit(base, target, c0, c, db[..dblen], eb[..eblen], out.data, before, scan, len, pos, lenf, lenb);
        lastscan := scan - lenb;
        lastpos := pos - lenb;
        lastoffset := pos - scan;
      } else {
        ScanningSkip(base, target, c, db[..dblen], eb[..eblen], out.data, before, scan, len, pos);
      }
      JustifiedBy(a, base, target, r);
      ExplainedAppend(a, base, target, c0, rs, r);
      rs := rs + [r];
    }
    ScanningMeans(base, target, c, db[..dblen], eb[..eblen], out.data,
                  Vars(scan, len, pos, lastscan, lastpos, lastoffset));
    CompleteAt(target, rs);
  }

  lemma NothingToExplain(a: seq<int>, base: seq<byte>, target: seq<byte>)
    ensures Explained(a, base, target, [], []) && VarsAt(target, [], 0) == Vars(0, 0, 0, 0, 0, 0)
  {
  }

  lemma CompleteAt(target: seq<byte>, rs: seq<Round>)
    requires VarsAt(target, rs, |rs|).scan == |target|
    ensures Complete(target, rs)
  {
  }

  lemma ScanningStart(base: seq<byte>, target: seq<byte>, diff: seq<byte>, extra: seq<byte>, data: seq<byte>)
    requires diff == [] && extra == [] && data == Written(target, [])
    ensures Scanning(base, target, [], diff, extra, data, Vars(0, 0, 0, 0, 0, 0))
  {
  }

  lemma ScanningMeans(base: seq<byte>, target: seq<byte>, c: seq<Triple>, diff: seq<byte>, extra: seq<byte>,
                      data: seq<byte>, v: Vars)
    requires Scanning(base, target, c, diff, extra, data, v)
    ensures Building(base, target, c, diff, extra, data, v.lastscan, v.lastpos)
    ensures 0 <= v.lastscan <= v.scan && 0 <= v.lastpos <= |base| && 0 <= v.len && 0 <= v.pos <= |base|
             && 0 <= v.scan + v.len + v.lastoffset
    ensures v.scan < |target| ==>
              v.scan + v.len <= |target| && (v.scan == 0 || v.len > 0) && 9 * |c| <= v.scan + v.len
    ensures v.scan == |target| ==>
             && Encodes(base, target, c, diff, extra, |target|) && data == Written(target, c)
             && 9 * |c| <= |target| + 9
  {
  }

  /** The scan went on without a new triple: the last offset still explains
      everything. */
  lemma ScanningSkip(base: seq<byte>, target: seq<byte>, c: seq<Triple>, diff: seq<byte>, extra: seq<byte>,
                     data: seq<byte>, v: Vars, scan: int, len: int, pos: int)
    requires Scanning(base, target, c, diff, extra, data, v)
    requires v.scan < |target| && v.scan + v.len <= scan < |target| && 0 < len && scan + len <= |target|
             && 0 <= pos <= |base|
    ensures Scanning(base, target, c, diff, extra, data, v.(scan := scan, len := len, pos := pos))
  {
  }

  /** A triple was emitted: nine or more bytes have been scanned for each. */
  lemma ScanningEmit(base: seq<byte>, target: seq<byte>, c0: seq<Triple>, c: seq<Triple>, diff: seq<byte>,
                     extra: seq<byte>, data: seq<byte>, v: Vars, scan: int, len: int, pos: int, lenf: int, lenb: int)
    requires 0 <= v.scan < |target| && 0 <= v.len && 9 * |c0| <= v.scan + v.len <= scan <= |target|
    requires |c| == |c0| + 1 && (scan < |target| ==> len >= 9 && scan + len <= |target|)
    requires 0 <= len && Fits(base, target, v.lastscan, v.lastpos, scan, pos, lenf, lenb)
    requires Building(base, target, c, diff, extra, data, scan - lenb, pos - lenb)
    ensures Scanning(base, target, c, diff, extra, data, Vars(scan, len, pos, scan - lenb, pos - lenb, pos - scan))
  {
  }

  /** A stop means a match, of nine bytes or more if it is not explained. */
  lemma StoppedLength(a: seq<int>, base: seq<byte>, target: seq<byte>, off: int, start: int, scan: int, len: int,
                      pos: int, score: int)
    requires Stopped(a, base, target, off, start, scan, len, pos, score) && scan < |target|
    ensures 0 < len && scan + len <= |target| && 0 <= score
    ensures len != score ==> len >= 9
  {
  }

  /** What one round of the loop has established of itself. */
  lemma JustifiedBy(a: seq<int>, base: seq<byte>, target: seq<byte>, r: Round)
    requires r.before.scan < |target|
    requires Stopped(a, base, target, r.before.lastoffset, r.before.scan + r.before.len, r.scan, r.len, r.pos, r.score)
    requires r.before.scan + r.before.len == |target| ==> r.len == r.before.len && r.pos == r.before.pos
    requires r.len != r.score || r.scan == |target| ==>
               && Extended(base, target, r.before.lastscan, r.before.lastpos, r.scan, r.pos, r.lf, r.lb)
               && Divided(base, target, r.before.lastscan, r.before.lastpos, r.scan, r.pos, r.lf, r.lb, r.lenf, r.lenb)
               && Fits(base, target, r.before.lastscan, r.before.lastpos, r.scan, r.pos, r.lenf, r.lenb)
    ensures Justified(a, base, target, r)
    ensures Emits(target, r) <==> r.len != r.score || r.scan == |target|
    ensures Emitted(r) == TripleFor(r.before.lastscan, r.before.lastpos, r.scan, r.pos, r.lenf, r.lenb)
    ensures After(target, r)
            == if r.len != r.score || r.scan == |target|
               then Vars(r.scan, r.len, r.pos, r.scan - r.lenb, r.pos - r.lenb, r.pos - r.scan)
               else r.before.(scan := r.scan, len := r.len, pos := r.pos)
  {
    hide Stopped, Extended, Divided, Fits, TripleFor;
  }

  /** The patch that a build stores. */
  ghost function PatchOf(target: seq<byte>, c: seq<Triple>, diff: seq<byte>, extra: seq<byte>): Patch {
    Patch(Flatten(c), diff, extra, |target|)
  }

  // ---- the contract determines the patch ---------------------------------

  /** Two choices of extensions for the same match are the same. */
  lemma SameLengths(base: seq<byte>, target: seq<byte>, lastscan: int, lastpos: int, scan: int, pos: int,
                    lf1: int, lb1: int, lenf1: int, lenb1: int, lf2: int, lb2: int, lenf2: int, lenb2: int)
    requires Extended(base, target, lastscan, lastpos, scan, pos, lf1, lb1)
    requires Divided(base, target, lastscan, lastpos, scan, pos, lf1, lb1, lenf1, lenb1)
    requires Extended(base, target, lastscan, lastpos, scan, pos, lf2, lb2)
    requires Divided(base, target, lastscan, lastpos, scan, pos, lf2, lb2, lenf2, lenb2)
    ensures lf1 == lf2 && lb1 == lb2 && lenf1 == lenf2 && lenb1 == lenb2
  {
    SameExtensions(base, target, lastscan, lastpos, scan, pos, lf1, lb1, lf2, lb2);
    hide BestForward, BestBackward, BestDivision;
    var overlap := lastscan + lf1 - (scan - lb1);
    if overlap > 0 {
      SameDivision(base, target, lastpos + lf1 - overlap, pos - lb1, scan - lb1, overlap, lenf1 - (lf1 - overlap),
        lenf2 - (lf2 - overlap));
    }
  }

  lemma SameExtensions(base: seq<byte>, target: seq<byte>, lastscan: int, lastpos: int, scan: int, pos: int,
                       lf1: int, lb1: int, lf2: int, lb2: int)
    requires Extended(base, target, lastscan, lastpos, scan, pos, lf1, lb1)
    requires Extended(base, target, lastscan, lastpos, scan, pos, lf2, lb2)
    ensures lf1 == lf2 && lb1 == lb2
  {
    hide BestForward, BestBackward;
    SameForward(base, target, lastpos, lastscan, lf1, lf2, Min(scan - lastscan, |base| - lastpos));
    if scan < |target| { SameBackward(base, target, pos, scan, lb1, lb2, Min(scan - lastscan, pos)); }
  }

  /** From the same variables, two justified rounds do the same. */
  lemma SameRound(a: seq<int>, base: seq<byte>, target: seq<byte>, r1: Round, r2: Round)
    requires Justified(a, base, target, r1) && Justified(a, base, target, r2) && r1.before == r2.before
    ensures After(target, r1) == After(target, r2) && Emits(target, r1) == Emits(target, r2)
    ensures Emits(target, r1) ==> Emitted(r1) == Emitted(r2)
  {
    hide Stopped, Extended, Divided, Fits;
    var v := r1.before;
    SameStop(a, base, target, v.lastoffset, v.scan + v.len, r1.scan, r1.len, r1.pos, r1.score, r2.scan, r2.len, r2.pos,
      r2.score);
    if Emits(target, r1) {
      SameLengths(base, target, v.lastscan, v.lastpos, r1.scan, r1.pos, r1.lf, r1.lb, r1.lenf, r1.lenb, r2.lf, r2.lb,
        r2.lenf, r2.lenb);
    }
  }

  lemma {:induction false} SameRounds(a: seq<int>, base: seq<byte>, target: seq<byte>, c1: seq<Triple>,
                                      rs1: seq<Round>, c2: seq<Triple>, rs2: seq<Round>, k: nat)
    requires Explained(a, base, target, c1, rs1) && Explained(a, base, target, c2, rs2) && k <= |rs1| && k <= |rs2|
    ensures VarsAt(target, rs1, k) == VarsAt(target, rs2, k)
    ensures Triples(target, rs1[..k]) == Triples(target, rs2[..k])
  {
    hide *;
    RunsStart(target, rs1, rs2);
    if k > 0 {
      SameRounds(a, base, target, c1, rs1, c2, rs2, k - 1);
      RoundTaken(a, base, target, c1, rs1, k - 1);
      RoundTaken(a, base, target, c2, rs2, k - 1);
      SameRound(a, base, target, rs1[k - 1], rs2[k - 1]);
    }
  }

  lemma RunsStart(target: seq<byte>, rs1: seq<Round>, rs2: seq<Round>)
    ensures VarsAt(target, rs1, 0) == VarsAt(target, rs2, 0)
    ensures Triples(target, rs1[..0]) == Triples(target, rs2[..0])
  {
  }

  /** What round k of a run adds to it. */
  lemma RoundTaken(a: seq<int>, base: seq<byte>, target: seq<byte>, c: seq<Triple>, rs: seq<Round>, k: nat)
    requires Explained(a, base, target, c, rs) && k < |rs|
    ensures Justified(a, base, target, rs[k]) && rs[k].before == VarsAt(target, rs, k)
    ensures VarsAt(target, rs, k + 1) == After(target, rs[k])
    ensures Triples(target, rs[..k + 1])
            == Triples(target, rs[..k]) + if Emits(target, rs[k]) then [Emitted(rs[k])] else []
  {
    assert rs[..k + 1][..k] == rs[..k];
    hide Justified, After, Emits, Emitted;
    assert rs[k].before == VarsAt(target, rs, k);
  }

  /** The offset that matches are scored against is always the one of the last
      emitted match: where the next triple starts in old, less where in new. */
  lemma {:induction false} OffsetOfLast(a: seq<int>, base: seq<byte>, target: seq<byte>, c: seq<Triple>,
                                        rs: seq<Round>, k: nat)
    requires Explained(a, base, target, c, rs) && k <= |rs|
    ensures var v := VarsAt(target, rs, k); v.lastoffset == v.lastpos - v.lastscan
  {
    hide *;
    OffsetKept(target, rs);
    if k > 0 {
      OffsetOfLast(a, base, target, c, rs, k - 1);
      RoundTaken(a, base, target, c, rs, k - 1);
    }
  }

  lemma OffsetKept(target: seq<byte>, rs: seq<Round>)
    ensures VarsAt(target, rs, 0).lastoffset == VarsAt(target, rs, 0).lastpos - VarsAt(target, rs, 0).lastscan
    ensures forall r: Round :: r.before.lastoffset == r.before.lastpos - r.before.lastscan ==>
              After(target, r).lastoffset == After(target, r).lastpos - After(target, r).lastscan
  {
  }

  /** A round only starts before the end of the data. */
  lemma RoundStarts(a: seq<int>, base: seq<byte>, target: seq<byte>, c: seq<Triple>, rs: seq<Round>, k: nat)
    requires Explained(a, base, target, c, rs) && k < |rs|
    ensures VarsAt(target, rs, k).scan < |target|
  {
    assert rs[k].before == VarsAt(target, rs, k);
  }

  /** Two runs over all of the new data emit the same triples. */
  lemma SameTriples(a: seq<int>, base: seq<byte>, target: seq<byte>, c1: seq<Triple>, rs1: seq<Round>,
                    c2: seq<Triple>, rs2: seq<Round>)
    requires Explained(a, base, target, c1, rs1) && Complete(target, rs1)
    requires Explained(a, base, target, c2, rs2) && Complete(target, rs2)
    ensures c1 == c2
  {
    var n: nat := Min(|rs1|, |rs2|);
    SameRounds(a, base, target, c1, rs1, c2, rs2, n);
    if n < |rs2| { RoundStarts(a, base, target, c2, rs2, n); }
    if n < |rs1| { RoundStarts(a, base, target, c1, rs1, n); }
    assert rs1[..n] == rs1 && rs2[..n] == rs2;
  }

  /** What a build promises of its files, its control triples and its patch. */
  ghost predicate Built(base: seq<byte>, target: seq<byte>, c: seq<Triple>, diff: seq<byte>, extra: seq<byte>,
                        a: seq<int>, rs: seq<Round>) {
    && Encodes(base, target, c, diff, extra, |target|) && IsSuffixArray(base, a)
    && Explained(a, base, target, c, rs) && Complete(target, rs)
  }

  /** There is only one patch a build can produce. */
  lemma BuildUnique(base: seq<byte>, target: seq<byte>, c1: seq<Triple>, diff1: seq<byte>, extra1: seq<byte>,
                    a1: seq<int>, rs1: seq<Round>, c2: seq<Triple>, diff2: seq<byte>, extra2: seq<byte>,
                    a2: seq<int>, rs2: seq<Round>)
    requires Built(base, target, c1, diff1, extra1, a1, rs1) && Built(base, target, c2, diff2, extra2, a2, rs2)
    ensures PatchOf(target, c1, diff1, extra1) == PatchOf(target, c2, diff2, extra2)
  {
    SuffixArrayUnique(base, a1, a2, |base| + 1);
    assert a1 == a1[..|base| + 1] == a2[..|base| + 1] == a2;
    hide Explained, Complete, Encodes, IsSuffixArray;
    SameTriples(a1, base, target, c1, rs1, c2, rs2);
    EncodesUnique(base, target, c1, diff1, extra1, diff2, extra2);
  }

  /** `bsdiffmain`: the stream ends up holding the layout of a patch that
      encodes all of the new data, with its sizes in the rewound header. */
  method Build(base: seq<byte>, target: seq<byte>, out: OutputStream)
    returns (ghost c: seq<Triple>, ghost diff: seq<byte>, ghost extra: seq<byte>, ghost a: seq<int>,
      ghost rs: seq<Round>)
    requires out.Valid() && out.data == [] && out.pos == 0
    modifies out
    ensures out.Valid() && out.pos == 0 && out.data == Layout(PatchOf(target, c, diff, extra))
    ensures Built(base, target, c, diff, extra, a, rs) && 9 * |c| <= |target| + 9
    ensures |out.data| == 16 + 12 * |c| + |diff| + |extra|
    ensures Value(out.data[0..4]) == 12 * |c| % TWO_32 && Value(out.data[4..8]) == |diff| % TWO_32
    ensures Value(out.data[8..12]) == |extra| % TWO_32 && Value(out.data[12..16]) == |target| % TWO_32
  {
    hide *;
    var I := Suffixes(base);
    var db := new byte[|target| + 1];
    var eb := new byte[|target| + 1];
    WriteHeader(out, |target|);
    WrittenEmpty(target);
    var controlSize, dblen, eblen;
    a := I[..];
    controlSize, dblen, eblen, c, rs := EmitAll(I, base, target, db, eb, out);
    diff, extra := db[..dblen], eb[..eblen];
    Finish(target, out, controlSize, db[..dblen], eb[..eblen], c);
    BuiltBytes(base, target, c, diff, extra, a, rs);
  }

  /** The difference and the extra bytes, and the sizes in the rewound header. */
  method Finish(target: seq<byte>, out: OutputStream, controlSize: int, diff: seq<byte>, extra: seq<byte>,
                ghost c: seq<Triple>)
    requires out.Valid() && out.pos == |out.data| && out.data == Written(target, c) && controlSize == 12 * |c|
    modifies out
    ensures out.Valid() && out.pos == 0 && out.data == Layout(PatchOf(target, c, diff, extra))
  {
    hide *;
    OverwriteAtEnd(out.data, diff);
    out.WriteBytes(diff);
    OverwriteAtEnd(out.data, extra);
    out.WriteBytes(extra);
    LayoutWritten(target, c, diff, extra, out.data);
    out.Rewind();
    out.WriteInt32(controlSize);
    out.WriteInt32(|diff|);
    out.WriteInt32(|extra|);
    out.Rewind();
  }

  /** The suffix array of old, in an array of its own. */
  method Suffixes(base: seq<byte>) returns (I: array<int>)
    ensures fresh(I) && IsSuffixArray(base, I[..])
  {
    I := new int[|base| + 1];
    var V := new int[|base| + 1];
    QSufSort(I, V, base);
  }

  lemma BuiltBytes(base: seq<byte>, target: seq<byte>, c: seq<Triple>, diff: seq<byte>, extra: seq<byte>, a: seq<int>,
                   rs: seq<Round>)
    requires Encodes(base, target, c, diff, extra, |target|) && IsSuffixArray(base, a)
    requires Explained(a, base, target, c, rs) && Complete(target, rs)
    ensures Built(base, target, c, diff, extra, a, rs)
    ensures var s := Layout(PatchOf(target, c, diff, extra));
            && |s| == 16 + 12 * |c| + |diff| + |extra|
            && Value(s[0..4]) == 12 * |c| % TWO_32 && Value(s[4..8]) == |diff| % TWO_32
            && Value(s[8..12]) == |extra| % TWO_32 && Value(s[12..16]) == |target| % TWO_32
  {
    hide Encodes, Explained, Complete, IsSuffixArray, Layout, Flatten, Value;
    LayoutBytes(PatchOf(target, c, diff, extra));
  }

  method WriteHeader(out: OutputStream, n: int)
    requires out.Valid() && out.data == [] && out.pos == 0
    modifies out
    ensures out.Valid() && out.pos == |out.data| && out.data == Header(0, 0, 0, n)
  {
    hide Encode;
    OverwriteAtEnd(out.data, Encode(0));
    out.WriteInt32(0);
    OverwriteAtEnd(out.data, Encode(0));
    out.WriteInt32(0);
    OverwriteAtEnd(out.data, Encode(0));
    out.WriteInt32(0);
    OverwriteAtEnd(out.data, Encode(n));
    out.WriteInt32(n);
    assert [] + Encode(0) == Encode(0);
  }

  lemma WrittenEmpty(target: seq<byte>)
    ensures Written(target, []) == Header(0, 0, 0, |target|)
  {
  }

  lemma LayoutWritten(target: seq<byte>, c: seq<Triple>, diff: seq<byte>, extra: seq<byte>, data: seq<byte>)
    requires data == Written(target, c) + diff + extra
    ensures |data| >= 16
    ensures Overwrite(Overwrite(Overwrite(data, 0, Encode(12 * |c|)), 4, Encode(|diff|)), 8, Encode(|extra|))
            == Layout(PatchOf(target, c, diff, extra))
  {
    hide Encode, EncodeAll, Header, Overwrite, Flatten;
    var control := EncodeAll(Flatten(c));
    Regroup(Header(0, 0, 0, |target|), control, diff, extra);
    OverwriteHeader(|target|, control + diff + extra, 12 * |c|, |diff|, |extra|);
    Regroup(Header(12 * |c|, |diff|, |extra|, |target|), control, diff, extra);
  }

  lemma Regroup(a: seq<byte>, b: seq<byte>, c: seq<byte>, d: seq<byte>)
    ensures a + b + c + d == a + (b + c + d)
  {
  }
}
