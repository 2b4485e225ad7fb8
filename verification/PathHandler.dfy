/** The growing stack and the growing ring buffer of path components, the
    tokenizer that fills them, and the resolver built on both. */
module PathHandler {
  import opened Basics
  import opened PathStrings

  const INITIAL_CAPACITY := 10

  /** Stack of components over an array that doubles when full. */
  class PathStack {
    var data: array<string>
    var top: int

    ghost predicate Valid()
      reads this
    {
      0 < data.Length && -1 <= top < data.Length
    }

    ghost function Contents(): (s: seq<string>)
      requires Valid()
      reads this, data
      ensures |s| == top + 1
    {
      data[..top + 1]
    }

    constructor ()
      ensures Valid() && fresh(data) && Contents() == []
    {
      data := new string[INITIAL_CAPACITY](_ => "");
      top := -1;
    }

    method Resize()
      requires Valid()
      modifies this
      ensures Valid() && fresh(data) && Contents() == old(Contents())
      ensures data.Length == 2 * old(data.Length)
    {
      var oldData := data;
      var bigger := new string[2 * data.Length](_ => "");
      for i := 0 to data.Length
        invariant bigger[..i] == oldData[..i]
        invariant data == oldData && top == old(top) && fresh(bigger)
      {
        bigger[i] := oldData[i];
      }
      data := bigger;
    }

    method Push(item: string)
      requires Valid()
      modifies this, data
      ensures Valid() && (data == old(data) || fresh(data))
      ensures Contents() == old(Contents()) + [item]
    {
      if top == data.Length - 1 {
        Resize();
      }
      top := top + 1;
      data[top] := item;
    }

    method Pop() returns (item: Option<string>)
      requires Valid()
      modifies this`top
      ensures Valid()
      ensures old(Contents()) == [] ==> item == None && Contents() == []
      ensures old(Contents()) != [] ==>
                item == Some(old(Contents())[|old(Contents())| - 1])
                && Contents() == old(Contents())[..|old(Contents())| - 1]
    {
      if top == -1 {
        return None;
      }
      top := top - 1;
      return Some(data[top + 1]);
    }
  }

  /** `size` items read from position `front` on, wrapping around the end. */
  function RingItems(d: seq<string>, front: nat, size: nat): (items: seq<string>)
    requires front < |d| && size <= |d|
    ensures |items| == size
  {
    if front + size <= |d| then d[front..front + size] else d[front..] + d[..front + size - |d|]
  }

  lemma {:induction false} RingPut(d: seq<string>, front: nat, size: nat, rear: nat, item: string)
    requires front < |d| && size < |d| && rear < |d|
    requires rear == front + size || rear == front + size - |d|
    ensures RingItems(d[rear := item], front, size + 1) == RingItems(d, front, size) + [item]
  {
  }

  lemma {:induction false} RingTake(d: seq<string>, front: nat, size: nat)
    requires front < |d| && 0 < size <= |d|
    ensures RingItems(d, front, size)[0] == d[front]
    ensures RingItems(d, if front + 1 < |d| then front + 1 else 0, size - 1) == RingItems(d, front, size)[1..]
  {
  }

  /** FIFO of components in a ring buffer that doubles when full. */
  class PathQueue {
    var data: array<string>
    var front: nat
    var rear: int
    var size: nat

    ghost predicate Valid()
      reads this
    {
      && 0 < data.Length && front < data.Length && size <= data.Length
      && -1 <= rear < data.Length
      && (rear + 1 == front + size || rear + 1 == front + size - data.Length
          || rear + 1 == front + size + data.Length)
    }

    /** The items from `front` on, wrapping around the end of the array. */
    ghost function Contents(): (s: seq<string>)
      requires Valid()
      reads this, data
      ensures |s| == size
    {
      RingItems(data[..], front, size)
    }

    constructor ()
      ensures Valid() && fresh(data) && Contents() == []
    {
      data := new string[INITIAL_CAPACITY](_ => "");
      front := 0;
      rear := -1;
      size := 0;
    }

    method Resize()
      requires Valid()
      modifies this
      ensures Valid() && fresh(data) && Contents() == old(Contents())
      ensures data.Length == 2 * old(data.Length) && size == old(size)
    {
      ghost var items := Contents();
      var bigger := new string[2 * data.Length](_ => "");
      for i := 0 to size
        invariant bigger[..i] == items[..i]
        invariant unchanged(this) && fresh(bigger)
        invariant Contents() == items
      {
        var item := At(i);
        bigger[i] := item;
      }
      data := bigger;
      front := 0;
      rear := size - 1;
    }

    method Enqueue(item: string)
      requires Valid()
      modifies this, data
      ensures Valid() && (data == old(data) || fresh(data))
      ensures Contents() == old(Contents()) + [item]
    {
      if size == data.Length {
        Resize();
      }
      Put(item);
    }

    /** The step `Enqueue` takes once there is room. */
    method Put(item: string)
      requires Valid() && size < data.Length
      modifies this`rear, this`size, data
      ensures Valid() && Contents() == old(Contents()) + [item]
    {
      ghost var before := data[..];
      WrapAround(rear + 1, data.Length);
      rear := (rear + 1) % data.Length;
      RingPut(before, front, size, rear, item);
      data[rear] := item;
      assert data[..] == before[rear := item];
      size := size + 1;
    }

    method Dequeue() returns (item: Option<string>)
      requires Valid()
      modifies this`front, this`size
      ensures Valid()
      ensures old(Contents()) == [] ==> item == None && Contents() == []
      ensures old(Contents()) != [] ==>
                item == Some(old(Contents())[0]) && Contents() == old(Contents())[1..]
    {
      if size == 0 {
        return None;
      }
      item := Some(data[front]);
      WrapAround(front + 1, data.Length);
      RingTake(data[..], front, size);
      front := (front + 1) % data.Length;
      size := size - 1;
    }

    method Peek() returns (item: Option<string>)
      requires Valid()
      ensures item == if Contents() == [] then None else Some(Contents()[0])
    {
      if size == 0 {
        return None;
      }
      RingTake(data[..], front, size);
      return Some(data[front]);
    }

    method At(i: nat) returns (item: string)
      requires Valid() && i < size
      ensures item == Contents()[i]
    {
      WrapAround(front + i, data.Length);
      item := data[(front + i) % data.Length];
    }
  }

  lemma {:induction false} WrapAround(x: nat, n: nat)
    requires 0 < n && x < 2 * n
    ensures x % n == if x < n then x else x - n
  {
  }

  lemma {:induction false} TokenAt(path: string, from: nat, next: nat)
    requires from < next <= |path| && '/' !in path[from..next]
    requires next < |path| ==> path[next] == '/'
    ensures Components(path[from..]) == [path[from..next]] + Components(path[next..])
  {
    ComponentsOfToken(path[from..next], path[next..]);
    assert path[from..] == path[from..next] + path[next..];
  }

  /** One `strtok` call on the text from position `i` on. */
  method NextToken(path: string, i: nat) returns (token: Option<string>, next: nat)
    requires i <= |path|
    ensures i <= next <= |path|
    ensures token == None ==> Components(path[i..]) == []
    ensures token.Some? ==> i < next && Components(path[i..]) == [token.value] + Components(path[next..])
  {
    hide TokenLength;
    var from := i;
    while from < |path| && path[from] == '/'
      invariant i <= from <= |path|
      invariant Components(path[i..]) == Components(path[from..])
    {
      assert path[from..][1..] == path[from + 1..];
      from := from + 1;
    }
    if from == |path| {
      return None, from;
    }
    next := from;
    while next < |path| && path[next] != '/'
      invariant from <= next <= |path|
      invariant '/' !in path[from..next]
    {
      next := next + 1;
    }
    token := Some(path[from..next]);
    TokenAt(path, from, next);
  }

  method PushPath(s: PathStack, path: string)
    requires s.Valid()
    modifies s, s.data
    ensures s.Valid() && (s.data == old(s.data) || fresh(s.data))
    ensures s.Contents() == old(s.Contents()) + Components(path)
  {
    var token, i := NextToken(path, 0);
    assert path[0..] == path;
    while token.Some?
      invariant i <= |path|
      invariant s.Valid() && (s.data == old(s.data) || fresh(s.data))
      invariant s.Contents() + (if token.Some? then [token.value] + Components(path[i..]) else [])
                == old(s.Contents()) + Components(path)
      decreases |path| - i, token.Some?
    {
      ghost var was := s.Contents();
      s.Push(token.value);
      assert was + ([token.value] + Components(path[i..])) == s.Contents() + Components(path[i..]);
      token, i := NextToken(path, i);
    }
  }

  method EnqueuePath(q: PathQueue, path: string)
    requires q.Valid()
    modifies q, q.data
    ensures q.Valid() && (q.data == old(q.data) || fresh(q.data))
    ensures q.Contents() == old(q.Contents()) + Components(path)
  {
    var token, i := NextToken(path, 0);
    assert path[0..] == path;
    while token.Some?
      invariant i <= |path|
      invariant q.Valid() && (q.data == old(q.data) || fresh(q.data))
      invariant q.Contents() + (if token.Some? then [token.value] + Components(path[i..]) else [])
                == old(q.Contents()) + Components(path)
      decreases |path| - i, token.Some?
    {
      ghost var was := q.Contents();
      q.Enqueue(token.value);
      assert was + ([token.value] + Components(path[i..])) == q.Contents() + Components(path[i..]);
      token, i := NextToken(path, i);
    }
  }

  /** Bytes both joining routines allocate: every component and one more each. */
  ghost function JoinBytes(cs: seq<string>): nat {
    if cs == [] then 0 else |cs[0]| + 1 + JoinBytes(cs[1..])
  }

  lemma {:induction false} JoinSnoc(cs: seq<string>, i: nat)
    requires i < |cs|
    ensures JoinAbs(cs[..i + 1]) == JoinAbs(cs[..i]) + "/" + cs[i]
    ensures JoinBytes(cs[..i + 1]) == JoinBytes(cs[..i]) + |cs[i]| + 1
  {
    assert cs[..i + 1] == cs[..i] + [cs[i]];
    JoinAbsAppend(cs[..i], [cs[i]]);
    assert JoinAbs([cs[i]]) == "/" + cs[i];
    JoinBytesAppend(cs[..i], [cs[i]]);
    assert [cs[i]][1..] == [];
  }

  lemma {:induction false} JoinBytesAppend(a: seq<string>, b: seq<string>)
    ensures JoinBytes(a + b) == JoinBytes(a) + JoinBytes(b)
  {
    if a == [] {
      assert a + b == b;
    } else {
      assert (a + b)[1..] == a[1..] + b;
      JoinBytesAppend(a[1..], b);
    }
  }

  /** Rebuilds "/a/b/c" from the bottom of the stack up. The text never
      outgrows the bytes computed for it. */
  method PathFromStack(s: PathStack) returns (path: string)
    requires s.Valid()
    ensures path == JoinAbs(s.Contents())
    ensures |path| <= JoinBytes(s.Contents())
  {
    if s.top == -1 {
      return "";
    }
    ghost var cs := s.Contents();
    path := "/";
    var i := 0;
    while i <= s.top
      invariant 0 <= i <= s.top + 1
      invariant path == JoinAbs(cs[..i]) + (if i <= s.top then "/" else "")
      invariant |JoinAbs(cs[..i])| == JoinBytes(cs[..i])
    {
      JoinSnoc(cs, i);
      path := path + s.data[i];
      if i < s.top {
        path := path + "/";
      }
      i := i + 1;
    }
    assert cs[..i] == cs;
  }

  /** Rebuilds "a/b/c" from front to rear. */
  method PathFromQueue(q: PathQueue) returns (path: string)
    requires q.Valid()
    ensures path == JoinRel(q.Contents())
    ensures |path| <= JoinBytes(q.Contents())
  {
    if q.size == 0 {
      return "";
    }
    ghost var cs := q.Contents();
    path := "";
    var i := 0;
    while i < q.size
      invariant 0 <= i <= q.size
      invariant path == JoinRel(cs[..i]) + (if 0 < i < q.size then "/" else "")
      invariant |JoinRel(cs[..i])| <= JoinBytes(cs[..i])
    {
      JoinSnoc(cs, i);
      JoinRelSnoc(cs, i);
      var item := q.At(i);
      path := path + item;
      if i < q.size - 1 {
        path := path + "/";
      }
      i := i + 1;
    }
    assert cs[..i] == cs;
  }

  lemma {:induction false} JoinRelSnoc(cs: seq<string>, i: nat)
    requires i < |cs|
    ensures JoinRel(cs[..i + 1]) == JoinRel(cs[..i]) + (if i == 0 then "" else "/") + cs[i]
  {
    if i == 0 {
      assert cs[..1] == [cs[0]];
      assert JoinRel([cs[0]]) == cs[0] + JoinAbs([]);
    } else {
      JoinSnoc(cs, i);
      JoinShape(cs[..i]);
      JoinShape(cs[..i + 1]);
      DropFirst(JoinRel(cs[..i + 1]), JoinRel(cs[..i]) + "/" + cs[i], JoinRel(cs[..i]), cs[i]);
    }
  }

  lemma {:induction false} DropFirst(whole: string, parts: string, front: string, last: string)
    requires "/" + whole == "/" + front + "/" + last && parts == front + "/" + last
    ensures whole == parts
  {
    assert "/" + whole == "/" + parts;
    assert whole == ("/" + whole)[1..] && parts == ("/" + parts)[1..];
  }

  /** Each leading ".." of `cs` removes the last component of `base`. */
  function Climb(base: seq<string>, cs: seq<string>): Option<(seq<string>, seq<string>)> {
    if cs == [] || cs[0] != ".." then Some((base, cs))
    else if base == [] then None
    else Climb(base[..|base| - 1], cs[1..])
  }

  lemma {:induction false} ClimbInOneGo(base: seq<string>, cs: seq<string>)
    ensures var k := LeadingDots(cs);
            Climb(base, cs) == if k > |base| then None else Some((base[..|base| - k], cs[k..]))
    decreases |cs|
  {
    if cs != [] && cs[0] == ".." && base != [] {
      var shorter, k := base[..|base| - 1], LeadingDots(cs);
      ClimbInOneGo(shorter, cs[1..]);
      assert k - 1 <= |shorter| ==> shorter[..|shorter| - (k - 1)] == base[..|base| - k];
      assert cs[1..][k - 1..] == cs[k..];
    } else {
      assert base[..|base|] == base && cs[0..] == cs;
    }
  }

  /** Takes one ".." off the queue for each component taken off the stack,
      and fails when the stack runs out first. */
  method ClimbDots(stack: PathStack, queue: PathQueue) returns (ok: bool)
    requires stack.Valid() && queue.Valid()
    modifies stack`top, queue`front, queue`size
    ensures stack.Valid() && queue.Valid()
    ensures ok == Climb(old(stack.Contents()), old(queue.Contents())).Some?
    ensures ok ==> Climb(old(stack.Contents()), old(queue.Contents())) == Some((stack.Contents(), queue.Contents()))
  {
    hide PathStack.Contents, PathQueue.Contents;
    ghost var goal := Climb(stack.Contents(), queue.Contents());
    var dir := queue.Peek();
    while dir.Some? && dir.value == ".."
      invariant stack.Valid() && queue.Valid()
      invariant Climb(stack.Contents(), queue.Contents()) == goal
      invariant dir == if queue.Contents() == [] then None else Some(queue.Contents()[0])
      decreases |queue.Contents()|
    {
      var _ := queue.Dequeue();
      var popped := stack.Pop();
      if popped == None {
        assert goal == None;
        return false;
      }
      dir := queue.Peek();
    }
    assert goal == Some((stack.Contents(), queue.Contents()));
    return true;
  }

  method Load(pwd: string, input: string) returns (stack: PathStack, queue: PathQueue)
    ensures fresh(stack) && fresh(queue) && stack.Valid() && queue.Valid()
    ensures stack.Contents() == Components(pwd) && queue.Contents() == Components(input)
  {
    stack := new PathStack();
    PushPath(stack, pwd);
    queue := new PathQueue();
    EnqueuePath(queue, input);
  }

  /** Consumes the leading ".." of the input against the end of `pwd`. */
  method ResolvePath(pwd: string, input: string) returns (r: Option<(string, string)>)
    ensures var k, base := LeadingDots(Components(input)), Components(pwd);
            r == if k > |base| then None
                 else Some((JoinAbs(base[..|base| - k]), JoinRel(Components(input)[k..])))
  {
    var stack, queue := Load(pwd, input);
    ghost var base, cs := Components(pwd), Components(input);
    ghost var k := LeadingDots(cs);
    ClimbInOneGo(base, cs);
    var ok := ClimbDots(stack, queue);
    if !ok {
      return None;
    }
    assert stack.Contents() == base[..|base| - k] && queue.Contents() == cs[k..];
    var head := PathFromStack(stack);
    var tail := PathFromQueue(queue);
    return Some((head, tail));
  }

  method GetWholePath(input: string, pwd: string) returns (whole: Option<string>)
    ensures whole == WholePath(input, pwd)
  {
    if input != "" && input[0] == '/' {
      whole := Some(input);
    } else {
      var r := ResolvePath(pwd, "/" + input);
      assert ("/" + input)[1..] == input;
      if r == None {
        return None;
      }
      whole := Some(r.value.0 + "/" + r.value.1);
    }
  }
}
