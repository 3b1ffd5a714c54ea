/** Forms, and the identifiers made from them by exclusive-or. */
module Form {
  import opened GoTypes

  const FORM_ID_LENGTH := 16

  datatype Form = Form(
    contentType: Bytes, data: Bytes, description: Bytes, issue: Bytes, location: Bytes,
    submittedAt: Bytes, submitter: Bytes)

  datatype Info = Info(contentID: Bytes, formID: Bytes, issue: Bytes, location: Bytes, submitter: Bytes)

  function ToTheMinute(timestr: Bytes): Bytes
    requires |timestr| >= 16
  {
    timestr[..16]
  }

  function Mix(x: byte, y: byte): byte {
    x ^ y
  }

  function XorItem(b: Bytes, item: Bytes): (r: Bytes)
    ensures |r| == |b|
    ensures forall i :: 0 <= i < |b| ==> r[i] == if i < |item| then Mix(b[i], item[i]) else b[i]
  {
    seq(|b|, i requires 0 <= i < |b| => if i < |item| then Mix(b[i], item[i]) else b[i])
  }

  function Xor(b: Bytes, items: seq<Bytes>): (r: Bytes)
    ensures |r| == |b|
    decreases items
  {
    if items == [] then b else Xor(XorItem(b, items[0]), items[1..])
  }

  /** Folds the items into the buffer in place, each as far as both reach. */
  method XOR(bytes: array<byte>, items: seq<Bytes>)
    modifies bytes
    ensures bytes[..] == Xor(old(bytes[..]), items)
  {
    var was := bytes[..];
    for n := 0 to |items|
      invariant bytes[..] == Xor(was, items[..n])
    {
      var item := items[n];
      ghost var before := bytes[..];
      var idx := 0;
      while idx < bytes.Length
        invariant 0 <= idx <= bytes.Length && idx <= |item|
        invariant forall i :: 0 <= i < idx ==> bytes[i] == Mix(before[i], item[i])
        invariant forall i :: idx <= i < bytes.Length ==> bytes[i] == before[i]
      {
        if idx < |item| {
          bytes[idx] := bytes[idx] ^ item[idx];
        } else {
          break;
        }
        idx := idx + 1;
      }
      assert bytes[..] == XorItem(before, item);
      assert items[..n + 1] == items[..n] + [item];
      XorComposes(was, items[..n], [item]);
    }
    assert items[..|items|] == items;
  }

  method ID(form: Form) returns (id: Bytes)
    requires |form.submittedAt| >= 16
    ensures id == IDOf(form)
  {
    var bytes := new byte[FORM_ID_LENGTH](_ => 0);
    assert bytes[..] == Zeros();
    XOR(bytes, [ToTheMinute(form.submittedAt), form.issue, form.location]);
    return bytes[..];
  }

  method NewInfo(contentID: Bytes, form: Form) returns (info: Info)
    requires |form.submittedAt| >= 16
    ensures info == Info(contentID, IDOf(form), form.issue, form.location, form.submitter)
    ensures |info.formID| == FORM_ID_LENGTH
  {
    var id := ID(form);
    return Info(contentID, id, form.issue, form.location, form.submitter);
  }

  function Zeros(): Bytes {
    seq(FORM_ID_LENGTH, _ => 0)
  }

  function IDOf(form: Form): (id: Bytes)
    requires |form.submittedAt| >= 16
    ensures |id| == FORM_ID_LENGTH
  {
    Xor(Zeros(), [ToTheMinute(form.submittedAt), form.issue, form.location])
  }

  // ---------- Laws of the in-place fold ----------

  /** Items then more items is what their concatenation does. */
  lemma {:induction false} XorComposes(b: Bytes, xs: seq<Bytes>, ys: seq<Bytes>)
    ensures Xor(Xor(b, xs), ys) == Xor(b, xs + ys)
    decreases xs
  {
    if xs == [] {
      assert xs + ys == ys;
    } else {
      XorComposes(XorItem(b, xs[0]), xs[1..], ys);
      assert (xs + ys)[1..] == xs[1..] + ys;
    }
  }

  lemma {:induction false} XorItemPast(b: Bytes, item: Bytes, xs: seq<Bytes>)
    ensures Xor(XorItem(b, item), xs) == XorItem(Xor(b, xs), item)
    decreases xs
  {
    if xs != [] {
      XorItemsCommute(b, item, xs[0]);
      XorItemPast(XorItem(b, xs[0]), item, xs[1..]);
    }
  }

  lemma XorItemsCommute(b: Bytes, x: Bytes, y: Bytes)
    ensures XorItem(XorItem(b, x), y) == XorItem(XorItem(b, y), x)
  {
  }

  lemma MixLaws(a: byte, x: byte, y: byte)
    ensures Mix(Mix(a, x), y) == Mix(Mix(a, y), x)
    ensures Mix(Mix(a, x), x) == a
    ensures Mix(a, x) == Mix(x, a)
    ensures Mix(0, a) == a
  {
  }

  /** Mixing keeps the bits that are set in one of the two. */
  lemma MixIsXor(a: byte, x: byte)
    ensures Mix(a, x) == (a | x) & !(a & x)
  {
  }

  /** Folding the same items in once more restores the buffer. */
  lemma {:induction false} XorUndoes(b: Bytes, xs: seq<Bytes>)
    ensures Xor(Xor(b, xs), xs) == b
    decreases xs
  {
    if xs != [] {
      var x, t := xs[0], xs[1..];
      XorItemPast(XorItem(b, x), x, t);
      XorUndoes(XorItem(XorItem(b, x), x), t);
      var twice := XorItem(XorItem(b, x), x);
      forall i | 0 <= i < |b| ensures twice[i] == b[i] {
        if i < |x| {
          MixLaws(b[i], x[i], 0);
        }
      }
      assert twice == b;
    }
  }

  /** The order of the items does not matter. */
  lemma {:induction false} XorIgnoresOrder(b: Bytes, xs: seq<Bytes>, ys: seq<Bytes>)
    requires multiset(xs) == multiset(ys)
    ensures Xor(b, xs) == Xor(b, ys)
    decreases xs
  {
    if xs == [] {
      assert |multiset(ys)| == 0;
      assert ys == [];
    } else {
      var x := xs[0];
      assert x in multiset(xs);
      assert x in ys;
      var i :| 0 <= i < |ys| && ys[i] == x;
      var l, r := ys[..i], ys[i + 1..];
      assert ys == l + [x] + r;
      assert xs == [x] + xs[1..];
      assert multiset(xs[1..]) == multiset(xs) - multiset{x};
      assert multiset(l + r) == multiset(ys) - multiset{x};
      XorIgnoresOrder(XorItem(b, x), xs[1..], l + r);
      XorPullOut(b, l, x, r);
    }
  }

  lemma XorPullOut(b: Bytes, l: seq<Bytes>, x: Bytes, r: seq<Bytes>)
    ensures Xor(b, l + [x] + r) == Xor(XorItem(b, x), l + r)
  {
    XorComposes(XorItem(b, x), l, r);
    XorItemPast(b, x, l);
    XorComposes(b, l + [x], r);
    XorComposes(b, l, [x]);
    assert [x][1..] == [];
  }

  // ---------- What an identifier depends on ----------

  /** The first 16 bytes, zeros where there are fewer. */
  function Prefix16(s: Bytes): (p: Bytes)
    ensures |p| == 16
  {
    seq(16, i requires 0 <= i < 16 => if i < |s| then s[i] else 0)
  }

  /** Byte i of an identifier is the exclusive-or of byte i of the minute, the issue and the location. */
  lemma IDByte(form: Form, i: nat)
    requires |form.submittedAt| >= 16 && i < 16
    ensures var p := Parts(form); IDOf(form)[i] == Mix(Mix(p[0][i], p[1][i]), p[2][i])
  {
    hide Mix;
    var m := ToTheMinute(form.submittedAt);
    var a := XorItem(Zeros(), m);
    var b := XorItem(a, form.issue);
    XorThree(Zeros(), m, form.issue, form.location);
    MixLaws(m[i], 0, 0);
    MixZero(a[i]);
    MixZero(b[i]);
  }

  function ByteAt(s: Bytes, i: nat): byte {
    if i < |s| then s[i] else 0
  }

  /** An identifier has 16 bytes, each the exclusive-or of those of the minute, the issue and the location at
      its place, nothing where they are shorter. */
  lemma IDBytesExactly(form: Form, id: Bytes)
    requires |form.submittedAt| >= 16
    ensures id == IDOf(form) <==>
            |id| == 16 && forall i :: 0 <= i < 16 ==>
              id[i] == Mix(Mix(form.submittedAt[i], ByteAt(form.issue, i)), ByteAt(form.location, i))
  {
    hide IDOf, Mix;
    forall i | 0 <= i < 16
      ensures IDOf(form)[i] == Mix(Mix(form.submittedAt[i], ByteAt(form.issue, i)), ByteAt(form.location, i))
    {
      IDByte(form, i);
    }
  }

  lemma MixZero(a: byte)
    ensures Mix(a, 0) == a
  {
  }

  lemma XorThree(b: Bytes, x: Bytes, y: Bytes, z: Bytes)
    ensures Xor(b, [x, y, z]) == XorItem(XorItem(XorItem(b, x), y), z)
  {
    hide XorItem;
    assert [x, y, z][1..] == [y, z];
    assert [y, z][1..] == [z];
    assert [z][1..] == [];
    assert Xor(XorItem(XorItem(b, x), y), [z]) == XorItem(XorItem(XorItem(b, x), y), z);
    assert Xor(XorItem(b, x), [y, z]) == Xor(XorItem(XorItem(b, x), y), [z]);
  }

  /** The three parts of a form its identifier is made of, padded. */
  function Parts(form: Form): (p: seq<Bytes>)
    requires |form.submittedAt| >= 16
    ensures |p| == 3 && forall j :: 0 <= j < 3 ==> |p[j]| == 16
  {
    [Prefix16(form.submittedAt), Prefix16(form.issue), Prefix16(form.location)]
  }

  /** Forms with the same minute and the same padded 16-byte prefixes of issue and location share an
      identifier, whatever else they hold. */
  lemma IDDependsOnParts(f: Form, g: Form)
    requires |f.submittedAt| >= 16 && |g.submittedAt| >= 16
    requires Parts(f) == Parts(g)
    ensures IDOf(f) == IDOf(g)
  {
    hide Mix, Xor, IDOf;
    forall i | 0 <= i < 16 ensures IDOf(f)[i] == IDOf(g)[i] {
      IDByte(f, i);
      IDByte(g, i);
    }
  }

  /** With two of the three parts the same, two forms share an identifier exactly when the third parts are the same. */
  lemma IDCollidesExactly(f: Form, g: Form, third: nat)
    requires |f.submittedAt| >= 16 && |g.submittedAt| >= 16 && third < 3
    requires forall j :: 0 <= j < 3 && j != third ==> Parts(f)[j] == Parts(g)[j]
    ensures IDOf(f) == IDOf(g) <==> Parts(f)[third] == Parts(g)[third]
  {
    hide Mix, Xor, IDOf, Parts;
    var p, q := Parts(f), Parts(g);
    forall i | 0 <= i < 16 ensures IDOf(f)[i] == IDOf(g)[i] <==> p[third][i] == q[third][i] {
      IDByte(f, i);
      IDByte(g, i);
      ThirdDetermines(p[0][i], p[1][i], p[2][i], q[0][i], q[1][i], q[2][i], third);
    }
  }

  lemma ThirdDetermines(a: byte, b: byte, c: byte, x: byte, y: byte, z: byte, third: nat)
    requires third < 3
    requires (third != 0 ==> a == x) && (third != 1 ==> b == y) && (third != 2 ==> c == z)
    ensures Mix(Mix(a, b), c) == Mix(Mix(x, y), z) <==>
            (third == 0 ==> a == x) && (third == 1 ==> b == y) && (third == 2 ==> c == z)
  {
    hide Mix;
    MixLaws(Mix(a, b), c, 0);
    MixLaws(Mix(x, y), z, 0);
    MixLaws(a, b, 0);
    MixLaws(x, y, 0);
    MixLaws(b, a, 0);
    MixLaws(y, x, 0);
    MixLaws(c, Mix(a, b), 0);
    MixLaws(z, Mix(x, y), 0);
  }
}
