// The DNS blacklist codec of net-guardia/src/core/data_plane/dns_filter.rs: domain text to
// the length-prefixed form of section 3.1 of RFC 1035 in a fixed 128-byte name, and back.

module DnsCodec {
  import opened Basics
  import opened Utf8
  import opened AsciiText

  const NAME_CAPACITY := 128
  const LABEL_CAPACITY := 64

  type Label = seq<Byte>

  type Name = s: seq<Byte> | |s| == NAME_CAPACITY witness Zeros(NAME_CAPACITY)

  predicate LabelsOk(ls: seq<Label>) {
    forall i :: 0 <= i < |ls| ==> 0 < |ls[i]| < LABEL_CAPACITY
  }

  /** The length-prefixed labels, without the terminating zero. */
  function Wire(ls: seq<Label>): (w: seq<Byte>)
    requires LabelsOk(ls)
  {
    if ls == [] then [] else [|ls[0]|] + ls[0] + Wire(ls[1..])
  }

  predicate Fits(ls: seq<Label>) {
    LabelsOk(ls) && |Wire(ls)| < NAME_CAPACITY
  }

  /** The zero-padded fixed-size name. */
  function NameOf(ls: seq<Label>): (n: Name)
    requires Fits(ls)
  {
    Wire(ls) + Zeros(NAME_CAPACITY - |Wire(ls)|)
  }

  lemma {:induction false} WireAppend(a: seq<Label>, b: seq<Label>)
    requires LabelsOk(a) && LabelsOk(b)
    ensures Wire(a + b) == Wire(a) + Wire(b)
  {
    if a == [] {
      assert a + b == b;
    } else {
      assert (a + b)[1..] == a[1..] + b;
      WireAppend(a[1..], b);
    }
  }

  lemma WireHead(a: seq<Label>, x: seq<Byte>)
    requires a != [] && LabelsOk(a)
    ensures var u, n := Wire(a) + x, |a[0]|;
            u[0] == n && u[1..1 + n] == a[0] && u[1 + n..] == Wire(a[1..]) + x
  {
    Cut([|a[0]|] + a[0], Wire(a[1..]), x);
  }

  lemma Cut(h: seq<Byte>, w: seq<Byte>, x: seq<Byte>)
    requires |h| >= 1
    ensures (h + w + x)[0] == h[0] && (h + w + x)[1..|h|] == h[1..] && (h + w + x)[|h|..] == w + x
  {}

  /** The label code is prefix-free: what follows the terminator cannot change the labels. */
  lemma {:induction false} WirePrefixFree(a: seq<Label>, b: seq<Label>, x: seq<Byte>, y: seq<Byte>)
    requires LabelsOk(a) && LabelsOk(b)
    requires |x| > 0 && x[0] == 0 && |y| > 0 && y[0] == 0
    requires Wire(a) + x == Wire(b) + y
    ensures a == b
  {
    if a != [] && b != [] {
      WireHead(a, x);
      WireHead(b, y);
      WirePrefixFree(a[1..], b[1..], x, y);
      assert a == [a[0]] + a[1..] && b == [b[0]] + b[1..];
    } else if a != [] {
      WireHead(a, x);
    } else if b != [] {
      WireHead(b, y);
    }
  }

  lemma NameInjective(a: seq<Label>, b: seq<Label>)
    requires Fits(a) && Fits(b) && NameOf(a) == NameOf(b)
    ensures a == b
  {
    WirePrefixFree(a, b, Zeros(NAME_CAPACITY - |Wire(a)|), Zeros(NAME_CAPACITY - |Wire(b)|));
  }

  // ----- text to wire -----

  datatype DnsError =
    | LabelOutOfRange(len: nat)
    | InvalidLabel(part: Label)
    | DomainTooLong(domain: Text)

  /** `is_valid_domain_label`. */
  predicate HostLabel(l: Label) {
    && l != []
    && IsAlphanumeric(l[0]) && IsAlphanumeric(l[|l| - 1])
    && forall i :: 0 <= i < |l| ==> IsAlphanumeric(l[i]) || l[i] == HYPHEN
  }

  predicate HostLabels(ls: seq<Label>) {
    forall i :: 0 <= i < |ls| ==> HostLabel(ls[i])
  }

  function Canonical(domain: Text): (t: Text) {
    Lower(StripDots(Trim(domain)))
  }

  predicate Encodable(ls: seq<Label>, used: nat) {
    LabelsOk(ls) && HostLabels(ls) && used + |Wire(ls)| < NAME_CAPACITY
  }

  /** The complaint about the first offending label, when `used` bytes are already written. */
  function FirstError(domain: Text, ls: seq<Label>, used: nat): (e: Option<DnsError>)
    requires used < NAME_CAPACITY
    ensures e.None? <==> Encodable(ls, used)
  {
    if ls == [] then None
    else if |ls[0]| == 0 || |ls[0]| >= LABEL_CAPACITY then Some(LabelOutOfRange(|ls[0]|))
    else if !HostLabel(ls[0]) then Some(InvalidLabel(ls[0]))
    else if used + 1 + |ls[0]| >= NAME_CAPACITY then
      assert LabelsOk(ls) ==> |Wire(ls)| == 1 + |ls[0]| + |Wire(ls[1..])|;
      Some(DomainTooLong(domain))
    else
      var rest := FirstError(domain, ls[1..], used + 1 + |ls[0]|);
      assert LabelsOk(ls) ==> |Wire(ls)| == 1 + |ls[0]| + |Wire(ls[1..])|;
      assert ls == [ls[0]] + ls[1..];
      rest
  }

  /** The name a domain text stands for, or why it stands for none. */
  function Encode(domain: Text): (r: Result<Name, DnsError>) {
    var t := Canonical(domain);
    match FirstError(t, Split(t), 0)
    case None => Ok(NameOf(Split(t)))
    case Some(e) => Err(e)
  }

  /** The bytes of a name after one more label, length byte first, is written at `pos`. */
  function PutLabel(name: Name, pos: nat, part: Label): (next: Name)
    requires pos + 1 + |part| < NAME_CAPACITY && |part| < LABEL_CAPACITY
  {
    name[..pos] + [|part|] + part + name[pos + 1 + |part|..]
  }

  /** The label loop from a partly written name on. */
  function EncodeLoop(domain: Text, ls: seq<Label>, name: Name, pos: nat): (r: Result<Name, DnsError>)
    decreases |ls|
  {
    if ls == [] then Ok(if pos < NAME_CAPACITY then name[pos := 0] else name)
    else if |ls[0]| == 0 || |ls[0]| >= LABEL_CAPACITY then Err(LabelOutOfRange(|ls[0]|))
    else if !HostLabel(ls[0]) then Err(InvalidLabel(ls[0]))
    else if pos + 1 + |ls[0]| >= NAME_CAPACITY then Err(DomainTooLong(domain))
    else EncodeLoop(domain, ls[1..], PutLabel(name, pos, ls[0]), pos + 1 + |ls[0]|)
  }

  lemma {:induction false} EncodeLoopIsEncode(domain: Text, done: seq<Label>, ls: seq<Label>)
    requires Fits(done)
    ensures var r := EncodeLoop(domain, ls, NameOf(done), |Wire(done)|);
            var e := FirstError(domain, ls, |Wire(done)|);
            if e.Some? then r == Err(e.value) else Fits(done + ls) && r == Ok(NameOf(done + ls))
    decreases |ls|
  {
    if ls == [] {
      Terminated(done, NameOf(done));
      assert done + ls == done;
    } else if 0 < |ls[0]| < LABEL_CAPACITY && |Wire(done)| + 1 + |ls[0]| < NAME_CAPACITY {
      ExtendName(done, ls[0]);
      EncodeLoopIsEncode(domain, done + [ls[0]], ls[1..]);
      assert done + [ls[0]] + ls[1..] == done + ls;
    }
  }

  method DomainToWire(domain: Text) returns (r: Result<Name, DnsError>)
    ensures r == Encode(domain)
  {
    var t := Canonical(domain);
    var labels: seq<Label> := Split(t);
    var name: Name := Zeros(NAME_CAPACITY);
    var pos: nat := 0;
    ghost var result := EncodeLoop(t, labels, name, 0);
    assert result == Encode(domain) by {
      EncodeLoopIsEncode(t, [], labels);
      assert Wire([]) == [] && NameOf([]) == name && [] + labels == labels;
    }
    for i := 0 to |labels|
      invariant result == EncodeLoop(t, labels[i..], name, pos)
    {
      var part := labels[i];
      assert labels[i..][0] == part && labels[i..][1..] == labels[i + 1..];
      if |part| == 0 || |part| >= 64 { return Err(LabelOutOfRange(|part|)); }
      if !HostLabel(part) { return Err(InvalidLabel(part)); }
      if pos + 1 + |part| >= 128 { return Err(DomainTooLong(t)); }
      name := WriteLabel(name, pos, part);
      pos := pos + 1 + |part|;
    }
    if pos < 128 { name := name[pos := 0]; }
    r := Ok(name);
  }

  /** Writing the terminator changes nothing: the name is zero there already. */
  lemma Terminated(ls: seq<Label>, name: Name)
    requires Fits(ls) && name == NameOf(ls)
    ensures name[|Wire(ls)| := 0] == name
  {
    assert name[|Wire(ls)|] == 0;
  }

  /** `slice.copy_from_slice` at an offset. */
  method CopyInto(data: array<Byte>, at: nat, src: seq<Byte>)
    requires at + |src| <= data.Length
    modifies data
    ensures data[..] == old(data[..at]) + src + old(data[at + |src|..])
  {
    for j := 0 to |src|
      invariant forall k :: 0 <= k < data.Length && !(at <= k < at + j) ==> data[k] == old(data[k])
      invariant forall k :: 0 <= k < j ==> data[at + k] == src[k]
    {
      data[at + j] := src[j];
    }
  }

  method WriteLabel(name: Name, pos: nat, part: Label) returns (next: Name)
    requires pos + 1 + |part| < NAME_CAPACITY && |part| < LABEL_CAPACITY
    ensures next == PutLabel(name, pos, part)
  {
    var data := new Byte[NAME_CAPACITY](k requires 0 <= k < NAME_CAPACITY => name[k]);
    assert data[..] == name;
    data[pos] := |part|;
    CopyInto(data, pos + 1, part);
    next := data[..];
  }

  lemma ExtendName(done: seq<Label>, part: Label)
    requires Fits(done) && 0 < |part| < LABEL_CAPACITY && |Wire(done)| + 1 + |part| < NAME_CAPACITY
    ensures Fits(done + [part]) && |Wire(done + [part])| == |Wire(done)| + 1 + |part|
    ensures PutLabel(NameOf(done), |Wire(done)|, part) == NameOf(done + [part])
  {
    WireAppend(done, [part]);
    assert Wire([part]) == [|part|] + part;
  }

  // ----- wire to text -----

  /** The labels stored in `name` from `pos` on; None where the stored bytes are malformed. */
  function ReadName(name: Name, pos: nat): (r: Option<seq<Label>>)
    ensures r.Some? ==> LabelsOk(r.value)
    decreases NAME_CAPACITY - pos
  {
    if pos >= NAME_CAPACITY || name[pos] == 0 then Some([])
    else
      var n := name[pos];
      if n >= LABEL_CAPACITY || pos + 1 + n > NAME_CAPACITY then None
      else if !ValidUtf8(name[pos + 1..pos + 1 + n]) then None
      else
        After([name[pos + 1..pos + 1 + n]], ReadName(name, pos + 1 + n))
  }

  function After(done: seq<Label>, rest: Option<seq<Label>>): (r: Option<seq<Label>>)
    ensures r.Some? <==> rest.Some?
  {
    if rest.None? then None else Some(done + rest.value)
  }

  lemma AfterNothing(rest: Option<seq<Label>>)
    ensures After([], rest) == rest
  {
    if rest.Some? { assert [] + rest.value == rest.value; }
  }

  lemma AfterAfter(done: seq<Label>, part: Label, rest: Option<seq<Label>>)
    ensures After(done, After([part], rest)) == After(done + [part], rest)
  {
    if rest.Some? { assert done + ([part] + rest.value) == (done + [part]) + rest.value; }
  }

  function JoinBytes(ls: seq<Label>): (s: seq<Byte>)
    requires |ls| >= 1
  {
    if |ls| == 1 then ls[0] else ls[0] + [DOT] + JoinBytes(ls[1..])
  }

  /** The domain text of a name, as `list_domains` shows it. */
  function Decode(name: Name): (r: Option<seq<Byte>>) {
    match ReadName(name, 0)
    case None => None
    case Some(ls) => if ls == [] then None else Some(JoinBytes(ls))
  }

  lemma {:induction false} JoinBytesAppend(ls: seq<Label>, l: Label)
    requires |ls| >= 1
    ensures JoinBytes(ls + [l]) == JoinBytes(ls) + [DOT] + l
  {
    if |ls| > 1 {
      assert (ls + [l])[1..] == ls[1..] + [l];
      JoinBytesAppend(ls[1..], l);
    } else {
      assert (ls + [l])[1..] == [l];
    }
  }

  ghost predicate Joined(domain: seq<Byte>, done: seq<Label>) {
    LabelsOk(done) && (done == [] <==> domain == []) && (done != [] ==> domain == JoinBytes(done))
  }

  /** Appends a label to the text, after a dot unless it is the first. */
  method PushLabel(domain: seq<Byte>, part: Label, ghost done: seq<Label>) returns (longer: seq<Byte>)
    requires Joined(domain, done) && 0 < |part| < LABEL_CAPACITY
    ensures Joined(longer, done + [part])
  {
    if done != [] { JoinBytesAppend(done, part); }
    longer := domain;
    if longer != [] { longer := longer + [DOT]; }
    longer := longer + part;
  }

  method WireToDomain(name: Name) returns (r: Option<seq<Byte>>)
    ensures r == Decode(name)
  {
    var domain: seq<Byte> := [];
    var pos := 0;
    ghost var done: seq<Label> := [];
    ghost var read := ReadName(name, 0);
    AfterNothing(read);
    while true
      invariant pos <= NAME_CAPACITY
      invariant Joined(domain, done)
      invariant read == After(done, ReadName(name, pos))
      decreases NAME_CAPACITY - pos
    {
      if pos >= 128 { break; }
      var n := name[pos];
      if n == 0 { break; }
      if n >= 64 || pos + 1 + n > 128 { return None; }
      pos := pos + 1;
      var part := name[pos..pos + n];
      if !ValidUtf8(part) { return None; }
      ReadNameStep(name, pos - 1, part);
      AfterAfter(done, part, ReadName(name, pos + n));
      domain := PushLabel(domain, part, done);
      done := done + [part];
      pos := pos + n;
    }
    assert read == Some(done) by { assert ReadName(name, pos) == Some([]) && done + [] == done; }
    r := if domain == [] then None else Some(domain);
  }

  // ----- round trips -----

  /** `ls`, then only zeros, is what `name` holds from `pos` on. */
  predicate Holds(name: Name, pos: nat, ls: seq<Label>) {
    && LabelsOk(ls) && pos + |Wire(ls)| < NAME_CAPACITY
    && name[pos..] == Wire(ls) + Zeros(NAME_CAPACITY - pos - |Wire(ls)|)
  }

  lemma HoldsNext(name: Name, pos: nat, ls: seq<Label>)
    requires ls != [] && Holds(name, pos, ls)
    ensures name[pos] == |ls[0]| && pos + 1 + |ls[0]| < NAME_CAPACITY
    ensures name[pos + 1..pos + 1 + |ls[0]|] == ls[0]
    ensures Holds(name, pos + 1 + |ls[0]|, ls[1..])
  {
    var n := |ls[0]|;
    var z := Zeros(NAME_CAPACITY - pos - |Wire(ls)|);
    var tail := name[pos..];
    assert tail == [n] + ls[0] + (Wire(ls[1..]) + z);
    assert tail[0] == n;
    assert tail[1..1 + n] == ls[0];
    assert tail[1 + n..] == Wire(ls[1..]) + z;
  }

  lemma ReadNameStep(name: Name, pos: nat, part: Label)
    requires 0 < |part| < LABEL_CAPACITY && pos + 1 + |part| <= NAME_CAPACITY
    requires name[pos] == |part| && name[pos + 1..pos + 1 + |part|] == part && ValidUtf8(part)
    ensures ReadName(name, pos) == After([part], ReadName(name, pos + 1 + |part|))
  {}

  /** Reading back a name yields exactly its labels. */
  lemma {:induction false} ReadBack(name: Name, pos: nat, ls: seq<Label>)
    requires Holds(name, pos, ls) && HostLabels(ls)
    ensures ReadName(name, pos) == Some(ls)
    decreases |ls|
  {
    if ls == [] {
      assert name[pos..][0] == 0;
    } else {
      HoldsNext(name, pos, ls);
      assert HostLabel(ls[0]);
      AsciiIsUtf8(ls[0]);
      ReadNameStep(name, pos, ls[0]);
      ReadBack(name, pos + 1 + |ls[0]|, ls[1..]);
      assert [ls[0]] + ls[1..] == ls;
    }
  }

  lemma {:induction false} JoinsAgree(parts: seq<Text>)
    requires |parts| >= 1
    ensures JoinBytes(parts) == Join(parts)
  {
    if |parts| > 1 { JoinsAgree(parts[1..]); }
  }

  /** Decoding the wire form of a valid domain gives its trimmed, dot-stripped, lower-cased text. */
  lemma DecodeEncode(domain: Text)
    requires Encode(domain).Ok?
    ensures Decode(Encode(domain).value) == Some(Canonical(domain))
  {
    var t := Canonical(domain);
    var ls := Split(t);
    ReadBack(NameOf(ls), 0, ls);
    JoinSplit(t);
    JoinsAgree(ls);
  }

  lemma {:induction false} JoinEnds(parts: seq<Text>)
    requires |parts| >= 1 && HostLabels(parts)
    ensures var s := Join(parts);
            s != [] && IsAlphanumeric(s[0]) && IsAlphanumeric(s[|s| - 1])
  {
    if |parts| > 1 {
      assert HostLabel(parts[0]);
      JoinEnds(parts[1..]);
    } else {
      assert HostLabel(parts[0]);
    }
  }

  /** A canonical text that encodes is a fixed point of canonicalisation. */
  lemma CanonicalFixed(domain: Text)
    requires Encode(domain).Ok?
    ensures Canonical(Canonical(domain)) == Canonical(domain)
  {
    var t := Canonical(domain);
    JoinSplit(t);
    JoinEnds(Split(t));
    AlreadyTrimmed(t);
    AlreadyLower(StripDots(Trim(domain)));
  }

  lemma AlreadyTrimmed(t: Text)
    requires t != [] && IsAlphanumeric(t[0]) && IsAlphanumeric(t[|t| - 1])
    ensures StripDots(Trim(t)) == t
  {
    assert TrimStart(t) == t && TrimEnd(t) == t;
  }

  lemma AlreadyLower(s: Text)
    ensures Lower(Lower(s)) == Lower(s)
  {}

  /** Encoding a listed name again gives the same 128 bytes. */
  lemma EncodeDecode(domain: Text)
    requires Encode(domain).Ok?
    ensures Encode(Canonical(domain)) == Encode(domain)
  {
    CanonicalFixed(domain);
  }

  /** Two texts share a name exactly when they share their canonical text. */
  lemma EncodeInjective(a: Text, b: Text)
    requires Encode(a).Ok? && Encode(b).Ok?
    ensures Encode(a) == Encode(b) <==> Canonical(a) == Canonical(b)
  {
    if Encode(a) == Encode(b) {
      DecodeEncode(a);
      DecodeEncode(b);
    }
  }

  // ----- which texts encode, and to what, in plain terms -----

  /** Spaces around a domain, dots after it and the case of its letters do not matter. */
  lemma EncodeIgnoresDress(pre: Text, core: Text, dots: Text, post: Text, twin: Text)
    requires Spaces(pre) && Dots(dots) && Spaces(post) && Solid(core) && core[|core| - 1] != 46 && SameButCase(core, twin)
    ensures Encode(pre + core + dots + post) == Encode(twin)
  {
    CanonicalOfDressed(pre, core, dots, post);
    CanonicalOfDressed([], twin, [], []);
    assert [] + twin + [] + [] == twin;
    LowerIgnoresCase(core, twin);
  }

  lemma CanonicalOfDressed(pre: Text, core: Text, dots: Text, post: Text)
    requires Spaces(pre) && Dots(dots) && Spaces(post) && Solid(core) && core[|core| - 1] != 46
    ensures Canonical(pre + core + dots + post) == Lower(core)
  {
    var dotted := core + dots;
    assert pre + core + dots + post == pre + dotted + post;
    assert dotted[0] == core[0] && dotted[|dotted| - 1] == if dots == [] then core[|core| - 1] else 46;
    TrimDrops(pre, dotted, post);
    StripDotsDrops(core, dots);
  }

  /** One to 63 letters, digits and hyphens, with no hyphen first or last. */
  predicate GoodLabel(l: Label) {
    && 1 <= |l| <= 63 && l[0] != 45 && l[|l| - 1] != 45
    && forall i :: 0 <= i < |l| ==> 48 <= l[i] <= 57 || 65 <= l[i] <= 90 || 97 <= l[i] <= 122 || l[i] == 45
  }

  lemma GoodLabelExactly(l: Label)
    ensures GoodLabel(l) <==> 0 < |l| < LABEL_CAPACITY && HostLabel(l)
  {}

  /** The labels with a byte more for each. */
  function Size(ls: seq<Label>): (n: nat) {
    if ls == [] then 0 else 1 + |ls[0]| + Size(ls[1..])
  }

  lemma {:induction false} WireSize(ls: seq<Label>)
    requires LabelsOk(ls)
    ensures |Wire(ls)| == Size(ls)
  {
    if ls != [] { WireSize(ls[1..]); }
  }

  lemma {:induction false} SizeOfSplit(t: Text)
    ensures Size(Split(t)) == |t| + 1
  {
    if t == [] {
      assert Split(t) == [[]] && Size([[]]) == 1 + Size([[]][1..]);
    } else {
      var rest := Split(t[1..]);
      SizeOfSplit(t[1..]);
      if t[0] == DOT {
        assert Split(t)[1..] == rest;
      } else {
        assert Split(t)[1..] == rest[1..];
      }
    }
  }

  /** A domain encodes exactly when its canonical text has at most 126 characters and good labels. */
  lemma EncodesExactly(domain: Text)
    ensures var t := Canonical(domain);
            Encode(domain).Ok? <==> |t| <= 126 && forall i :: 0 <= i < |Split(t)| ==> GoodLabel(Split(t)[i])
  {
    var ls := Split(Canonical(domain));
    forall i | 0 <= i < |ls| ensures GoodLabel(ls[i]) <==> 0 < |ls[i]| < LABEL_CAPACITY && HostLabel(ls[i]) {
      GoodLabelExactly(ls[i]);
    }
    SizeOfSplit(Canonical(domain));
    if LabelsOk(ls) { WireSize(ls); }
  }

  /** The error names the first label that is no good or no longer fits, and says which. */
  lemma {:induction false} FirstErrorMeans(domain: Text, ls: seq<Label>, used: nat) returns (i: nat)
    requires used < NAME_CAPACITY && FirstError(domain, ls, used).Some?
    ensures i < |ls| && (forall j :: 0 <= j < i ==> GoodLabel(ls[j])) && used + Size(ls[..i]) < 128
    ensures match FirstError(domain, ls, used).value
            case LabelOutOfRange(n) => n == |ls[i]| && (n == 0 || n > 63)
            case InvalidLabel(part) => part == ls[i] && 1 <= |part| <= 63 && !GoodLabel(part)
            case DomainTooLong(d) => d == domain && GoodLabel(ls[i]) && used + Size(ls[..i]) + 1 + |ls[i]| >= 128
    decreases |ls|
  {
    GoodLabelExactly(ls[0]);
    if GoodLabel(ls[0]) && used + 1 + |ls[0]| < NAME_CAPACITY {
      var k := FirstErrorMeans(domain, ls[1..], used + 1 + |ls[0]|);
      i := k + 1;
      assert ls[..i][1..] == ls[1..][..k];
      forall j | 0 <= j < i ensures GoodLabel(ls[j]) { if j > 0 { assert ls[j] == ls[1..][j - 1]; } }
    } else {
      i := 0;
    }
  }
}
