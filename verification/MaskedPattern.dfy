/** Masked byte patterns and the matcher compiled from them. */
module MaskedPattern {
  import opened Bytes
  import opened Bits

  datatype Pattern = Pattern(bytes: seq<Byte>, mask: seq<Byte>)

  datatype Check = Check(offset: nat, mask: Byte, value: Byte)

  datatype Matcher = Matcher(size: nat, checks: seq<Check>)

  predicate Compilable(p: Pattern) {
    p.bytes != [] && |p.bytes| == |p.mask|
  }

  /** The pattern fits the bytes from `at` on: every selected bit agrees. */
  predicate FitsAt(p: Pattern, bytes: seq<Byte>, at: nat)
    requires Compilable(p) && at + |p.bytes| <= |bytes|
  {
    forall i :: 0 <= i < |p.bytes| ==> Masked(bytes[at + i], p.mask[i]) == Masked(p.bytes[i], p.mask[i])
  }

  function CheckAt(p: Pattern, i: nat): Check
    requires Compilable(p) && i < |p.bytes|
  {
    Check(i, p.mask[i], Masked(p.bytes[i], p.mask[i]))
  }

  /** The checks are exactly those of the selected positions, one that selects a whole byte leading if there is any. */
  ghost predicate Compiled(m: Matcher, p: Pattern) {
    && Compilable(p) && m.size == |p.bytes|
    && (forall k :: 0 <= k < |m.checks| ==>
      m.checks[k].offset < m.size && m.checks[k] == CheckAt(p, m.checks[k].offset))
    && (forall i :: 0 <= i < |p.bytes| && p.mask[i] != 0 ==> CheckAt(p, i) in m.checks)
    && ((exists k :: 0 <= k < |m.checks| && m.checks[k].mask == 0xFF) ==> m.checks[0].mask == 0xFF)
  }

  predicate CheckPasses(c: Check, bytes: seq<Byte>, at: nat)
    requires at + c.offset < |bytes|
  {
    Masked(bytes[at + c.offset], c.mask) == c.value
  }

  predicate InReach(m: Matcher) {
    forall k :: 0 <= k < |m.checks| ==> m.checks[k].offset < m.size
  }

  predicate Passes(m: Matcher, bytes: seq<Byte>, at: nat)
    requires InReach(m) && at + m.size <= |bytes|
  {
    forall k :: 0 <= k < |m.checks| ==> CheckPasses(m.checks[k], bytes, at)
  }

  /** The compiled checks pass exactly where the pattern fits. */
  lemma {:induction false} CompiledMeans(m: Matcher, p: Pattern, bytes: seq<Byte>, at: nat)
    requires Compiled(m, p) && at + m.size <= |bytes|
    ensures InReach(m) && (Passes(m, bytes, at) <==> FitsAt(p, bytes, at))
  {
  }

  method CompileMaskedPattern(p: Pattern) returns (m: Option<Matcher>)
    ensures m.Some? <==> Compilable(p)
    ensures m.Some? ==> Compiled(m.value, p)
  {
    if !Compilable(p) {
      return None;
    }
    var checks: seq<Check> := [];
    for offset := 0 to |p.mask|
      invariant forall k :: 0 <= k < |checks| ==>
        checks[k].offset < |p.bytes| && checks[k] == CheckAt(p, checks[k].offset)
      invariant forall i :: 0 <= i < offset && p.mask[i] != 0 ==> CheckAt(p, i) in checks
    {
      if p.mask[offset] != 0 {
        checks := checks + [CheckAt(p, offset)];
      }
    }
    var anchor := 0;
    while anchor < |checks| && checks[anchor].mask != 0xFF
      invariant anchor <= |checks|
      invariant forall k :: 0 <= k < anchor ==> checks[k].mask != 0xFF
    {
      anchor := anchor + 1;
    }
    ghost var unswapped := checks;
    if anchor < |checks| {
      checks := checks[0 := checks[anchor]][anchor := checks[0]];
    }
    forall i | 0 <= i < |p.bytes| && p.mask[i] != 0
      ensures CheckAt(p, i) in checks
    {
      var k :| 0 <= k < |unswapped| && unswapped[k] == CheckAt(p, i);
      assert checks[if anchor < |checks| && k == 0 then anchor else if k == anchor then 0 else k] == unswapped[k];
    }
    m := Some(Matcher(|p.bytes|, checks));
  }

  /** `memchr`: the first of `count` bytes from `begin` on with the value. */
  method FindByte(bytes: array<Byte>, begin: nat, count: nat, value: Byte) returns (found: Option<nat>)
    requires begin + count <= bytes.Length
    ensures found.Some? ==> begin <= found.value < begin + count && bytes[found.value] == value
    ensures found.Some? ==> forall i :: begin <= i < found.value ==> bytes[i] != value
    ensures found.None? ==> forall i :: begin <= i < begin + count ==> bytes[i] != value
  {
    for i := begin to begin + count
      invariant forall j :: begin <= j < i ==> bytes[j] != value
    {
      if bytes[i] == value {
        return Some(i);
      }
    }
    found := None;
  }

  predicate Searchable(m: Matcher, length: nat, first: nat, end: nat) {
    first < end && m.size <= length && end <= length - m.size + 1
  }

  /** No candidate between the two passes. */
  predicate NonePass(m: Matcher, bytes: seq<Byte>, first: nat, end: nat)
    requires InReach(m) && end + m.size <= |bytes| + 1
  {
    forall c :: first <= c < end ==> !Passes(m, bytes, c)
  }

  method AllChecksPass(m: Matcher, bytes: array<Byte>, at: nat) returns (passes: bool)
    requires InReach(m) && at + m.size <= bytes.Length
    ensures passes <==> Passes(m, bytes[..], at)
  {
    for k := 0 to |m.checks|
      invariant forall j :: 0 <= j < k ==> CheckPasses(m.checks[j], bytes[..], at)
    {
      if Masked(bytes[at + m.checks[k].offset], m.checks[k].mask) != m.checks[k].value {
        assert !CheckPasses(m.checks[k], bytes[..], at);
        return false;
      }
    }
    passes := true;
  }

  /** Jumping to the next byte that equals a whole-byte anchor skips no match. */
  lemma {:induction false} AnchorSkips(m: Matcher, bytes: seq<Byte>, first: nat, end: nat)
    requires InReach(m) && end + m.size <= |bytes| + 1 && m.checks != [] && m.checks[0].mask == 0xFF
    requires forall i :: first + m.checks[0].offset <= i < end + m.checks[0].offset ==> bytes[i] != m.checks[0].value
    ensures NonePass(m, bytes, first, end)
  {
    forall c | first <= c < end
      ensures !Passes(m, bytes, c)
    {
      MaskExtremes(bytes[c + m.checks[0].offset]);
      assert !CheckPasses(m.checks[0], bytes, c);
    }
  }

  /** The first candidate that passes every check, with or without the anchor's skip. */
  method FindNext(m: Matcher, bytes: array<Byte>, first: nat, end: nat) returns (found: Option<nat>)
    requires InReach(m)
    ensures !Searchable(m, bytes.Length, first, end) ==> found.None?
    ensures Searchable(m, bytes.Length, first, end) ==>
      if found.None? then NonePass(m, bytes[..], first, end)
      else first <= found.value < end && Passes(m, bytes[..], found.value) && NonePass(m, bytes[..], first, found.value)
  {
    if first >= end || m.size > bytes.Length || end > bytes.Length - m.size + 1 {
      return None;
    }
    if m.checks == [] {
      return Some(first);
    }
    var candidate := first;
    while candidate < end
      invariant first <= candidate <= end && NonePass(m, bytes[..], first, candidate)
    {
      var anchor := m.checks[0];
      if anchor.mask == 0xFF {
        var begin := candidate + anchor.offset;
        var next := FindByte(bytes, begin, end - candidate, anchor.value);
        if next.None? {
          AnchorSkips(m, bytes[..], candidate, end);
          return None;
        }
        AnchorSkips(m, bytes[..], candidate, candidate + (next.value - begin));
        candidate := candidate + (next.value - begin);
      }
      var passes := AllChecksPass(m, bytes, candidate);
      if passes {
        return Some(candidate);
      }
      candidate := candidate + 1;
    }
    found := None;
  }
}
