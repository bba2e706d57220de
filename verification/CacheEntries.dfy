/** Cache entries: a message, an expiry time and the byte length recorded when the entry was made. */
module CacheEntries {
  import opened Common

  datatype Message = Message(headers: seq<(string, string)>, body: string) {
    function Size(): nat { HeaderBytes(headers) + |body| }
  }

  function HeaderBytes(headers: seq<(string, string)>): nat {
    if headers == [] then 0 else |headers[0].0| + |headers[0].1| + HeaderBytes(headers[1..])
  }

  datatype Entry = Entry(message: Option<Message>, expire: uint64, length: uint64) {
    /** createCopy: nothing to copy without a message; a copy has not been given a lifetime yet. */
    function Copy(): (r: Option<Entry>)
      ensures r.Some? <==> message.Some?
      ensures r.Some? ==> r.value.message == message && r.value.expire == 0
      ensures r.Some? ==> r.value.length == message.value.Size() % 0x1_0000_0000_0000_0000
    {
      if message.None? then None
      else Some(Entry(message, 0, Wrap64(message.value.Size())))
    }
  }

  /** The size is that of all names, values and the body: it adds up over any split of the headers. */
  lemma {:induction false} SizeAdds(a: seq<(string, string)>, b: seq<(string, string)>, name: string, value: string,
                                    body: string)
    ensures HeaderBytes(a + b) == HeaderBytes(a) + HeaderBytes(b)
    ensures Message([], body).Size() == |body|
    ensures Message([(name, value)] + b, body).Size() == |name| + |value| + Message(b, body).Size()
  {
    assert ([(name, value)] + b)[1..] == b;
    if a == [] {
      assert a + b == b;
    } else {
      SizeAdds(a[1..], b, name, value, body);
      assert (a + b)[1..] == a[1..] + b;
    }
  }
}
