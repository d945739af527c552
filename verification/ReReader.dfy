/** Reading a file that is being written: at its end the reader waits for more, and starts again when the file
    shrank. */
module FileFollower {
  import opened Wire

  datatype Err = NoError | EOF | Failed

  /** What others do to the file between two operations. */
  datatype Change = Grow(more: bytes) | Truncate(size: nat)

  predicate Grows(c: Change) { c.Grow? }

  function Changed(content: bytes, c: Change): bytes {
    match c
    case Grow(more) => content + more
    case Truncate(size) => if size <= |content| then content[..size] else content
  }

  class OpenFile {
    var content: bytes
    var offset: nat

    /** Reads at most `want` bytes at the offset; `outcome` is how the system answers when it could answer in several
        ways. */
    method Read(want: nat, outcome: Err, portion: nat) returns (data: bytes, err: Err)
      modifies this`offset
      ensures |data| <= want && offset == old(offset) + |data|
      ensures data != [] ==> offset <= |content| && data == content[old(offset)..offset]
      ensures err == EOF ==> offset >= |content|
    {
      var left := if offset < |content| then |content| - offset else 0;
      var n := if portion < left then portion else left;
      n := if want < n then want else n;
      data := if n == 0 then [] else content[offset..offset + n];
      offset := offset + n;
      err := if outcome == EOF && offset < |content| then NoError else outcome;
    }

    method SeekEnd() returns (end: nat)
      modifies this`offset
      ensures end == offset == |content|
    {
      offset := |content|;
      end := offset;
    }

    method SeekTo(pos: nat) returns (end: nat)
      modifies this`offset
      ensures end == offset == pos
    {
      offset := pos;
      end := pos;
    }

    method Meanwhile(c: Change)
      modifies this`content
      ensures content == Changed(old(content), c)
    {
      content := Changed(content, c);
    }
  }

  /** Reading on extends what was read. */
  lemma KeepsReading(content: bytes, start: nat, pos: nat, data: bytes, got: bytes)
    requires data != [] ==> pos + |data| <= |content| && data == content[pos..pos + |data|]
    requires start <= pos <= |content| ==> pos + |data| <= |content|
    ensures start <= pos <= |content| && got == content[start..pos] ==> got + data == content[start..pos + |data|]
    ensures start <= pos <= |content| && pos + |data| == |content| ==> content[pos..] == data
  {
  }

  /** Growth does not touch what was there. */
  lemma Grown(content: bytes, first: Change, second: Change, start: nat, pos: nat, data: bytes)
    ensures Grows(first) ==> |content| <= |Changed(content, first)|
    ensures Grows(first) && Grows(second) && start <= pos && pos + |data| <= |content| ==>
              var c := Changed(Changed(content, first), second);
              pos + |data| <= |c| && c[start..pos + |data|] == content[start..pos + |data|]
  {
  }

  class ReReader {
    const file: OpenFile
    var pos: nat

    ghost var start: nat  // where the file was first read from, or 0 after it shrank
    ghost var got: bytes  // what was returned since

    ghost predicate Valid()
      reads this, file
    {
      pos == file.offset
    }

    /** What was returned is what the file holds, from the first byte read to the current one. */
    ghost predicate Faithful()
      reads this, file
    {
      start <= pos <= |file.content| && got == file.content[start..pos]
    }

    constructor (file: OpenFile)
      ensures Valid() && this.file == file && start == pos == file.offset && got == []
      ensures pos <= |file.content| ==> Faithful()
    {
      this.file, pos, start, got := file, file.offset, file.offset, [];
    }

    /** `first` happens to the file between the read and the search for its end, `second` after that. */
    method Read(want: nat, outcome: Err, portion: nat, first: Change, second: Change) returns (data: bytes, err: Err)
      requires Valid()
      modifies this, file
      ensures Valid() && |data| <= want
      ensures file.content == Changed(Changed(old(file.content), first), second)
      ensures var shrank := data == [] && err == EOF && |Changed(old(file.content), first)| < old(pos);
              && pos == (if shrank then 0 else old(pos) + |data|)
              && start == (if shrank then 0 else old(start))
              && got == (if shrank then [] else old(got) + data)
      ensures old(Faithful()) && Grows(first) && Grows(second) ==>
                Faithful() && start == old(start) && got == old(got) + data
                && (err == EOF ==> old(file.content)[old(pos)..] == data)
    {
      hide Changed;
      ghost var was := file.content;
      data, err := file.Read(want, outcome, portion);
      KeepsReading(was, start, pos, data, got);
      pos := pos + |data|;
      got := got + data;
      file.Meanwhile(first);
      if data == [] && err == EOF {
        var end := file.SeekEnd();
        file.Meanwhile(second);
        if end < pos {
          end := file.SeekTo(0);
          pos := end;
          start, got := 0, [];
        } else if end > pos {
          var _ := file.SeekTo(pos);
        }
      } else {
        file.Meanwhile(second);
      }
      Grown(was, first, second, old(start), old(pos), data);
    }
  }
}
