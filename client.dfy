/** The irmin-server client of src/client.rs: the handshake, framed messages,
    the command dispatcher (`request` then `response`) and the typed facade
    over it (`ping`, the current branch, `Store`, `Commit` and `Tree`).

    The `Type` implementations that Rust selects for each argument tuple and
    each result type are passed to the facade methods explicitly, as an
    `Encoder` and a `Decoder`; only the `String` decoder, which `response`
    itself needs for error messages, is held by the client. */
module IrminClient {
  import opened Bytes
  import opened Errors
  import opened Wire
  import opened Stream

  /** A path in the store: its segments, in order. */
  type Key = seq<string>
  /** Commit metadata; its contents only matter to the codec. */
  type Info
  /** A hash of the client's hash algorithm. */
  type Hash
  /** A tree handle whose leaves are `T` values. */
  type Tree<T>
  /** A commit record as the server returns it. */
  type Commit

  datatype Option<T> = None | Some(value: T)

  /** The string whose digest is exchanged in the handshake. */
  const V1: string := "V1"

  class Client {
    const conn: BufStream
    /** Blake2b, as the `blake2` crate computes it. */
    const blake2b: seq<byte> -> seq<byte>
    /** `String::decode_bin`. */
    const text: Decoder<string>

    ghost predicate Valid()
      reads this, conn
    {
      conn.Valid()
    }

    /** The struct literal of `Client::new`, once the socket is connected. */
    constructor (conn: BufStream, blake2b: seq<byte> -> seq<byte>, text: Decoder<string>)
      requires conn.Valid()
      ensures Valid() && this.conn == conn && this.blake2b == blake2b && this.text == text
    {
      this.conn, this.blake2b, this.text := conn, blake2b, text;
    }

    /** The line both peers send: `format!("{:x}\n", Blake2b::digest(V1))`. */
    function Fingerprint(): (r: seq<byte>)
      ensures r == HandshakeLine(blake2b([0x56, 0x31]))
      ensures |r| == 2 * |blake2b([0x56, 0x31])| + 1
    {
      assert V1[1..][1..] == [];
      assert EncodeUtf8(V1) == [0x56, 0x31];
      HandshakeLine(blake2b(EncodeUtf8(V1)))
    }

    // -------------------------------------------------------------------
    // Handshake

    method WriteHandshake()
      requires Valid()
      modifies conn
      ensures Valid()
      ensures conn.output == old(conn.output) + Fingerprint() && conn.flushed == |conn.output|
      ensures conn.pos == old(conn.pos)
    {
      conn.WriteAll(Fingerprint());
      conn.Flush();
    }

    method ReadHandshake() returns (r: Result<bool>)
      requires Valid()
      modifies conn
      ensures Valid()
      ensures conn.output == old(conn.output) && conn.flushed == old(conn.flushed)
      ensures Read(r, conn.pos) == HandshakeReplyAt(conn.input, old(conn.pos), Fingerprint())
    {
      var line := conn.ReadLine();
      if line.Err? {
        return Err(line.error);
      }
      r := Ok(line.value == Fingerprint());
    }

    /** Writes the fingerprint line, then reads the peer's and refuses the
        connection unless it is the same line. */
    method DoHandshake() returns (r: Result<()>)
      requires Valid()
      modifies conn
      ensures Valid()
      ensures conn.output == old(conn.output) + Fingerprint() && conn.flushed == |conn.output|
      ensures Read(r, conn.pos) == HandshakeAt(conn.input, old(conn.pos), Fingerprint())
    {
      WriteHandshake();
      var ok := ReadHandshake();
      if ok.Err? {
        return Err(ok.error);
      }
      if !ok.value {
        return Err(ConnectionRefused(INVALID_HANDSHAKE));
      }
      r := Ok(());
    }

    /** `Client::new` after the socket is connected: build the client, then
        run the handshake; the client is returned only when it succeeds. */
    static method New(conn: BufStream, blake2b: seq<byte> -> seq<byte>, text: Decoder<string>) returns (r: Result<Client>)
      requires conn.Valid()
      modifies conn
      ensures conn.Valid()
      ensures var line := HandshakeLine(blake2b(EncodeUtf8(V1)));
        conn.output == old(conn.output) + line && conn.flushed == |conn.output| &&
        HandshakeAt(conn.input, old(conn.pos), line) == Read(if r.Ok? then Ok(()) else Err(r.error), conn.pos)
      ensures r.Ok? ==> (fresh(r.value) && r.value.Valid() && r.value.conn == conn &&
                         r.value.blake2b == blake2b && r.value.text == text)
    {
      var client := new Client(conn, blake2b, text);
      var shake := client.DoHandshake();
      if shake.Err? {
        return Err(shake.error);
      }
      r := Ok(client);
    }

    // -------------------------------------------------------------------
    // Framing and dispatch

    /** Encodes `msg` and writes it as one frame, then flushes. */
    method WriteMessage<M>(encode: Encoder<M>, msg: M) returns (r: Result<()>)
      requires Valid()
      modifies conn
      ensures Valid()
      ensures conn.output == old(conn.output) + (if encode(msg).Ok? then Frame(encode(msg).value) else [])
      ensures conn.flushed == if encode(msg).Ok? then |conn.output| else old(conn.flushed)
      ensures conn.pos == old(conn.pos)
      ensures r == if encode(msg).Ok? then Ok(()) else Err(encode(msg).error)
    {
      var data := encode(msg);
      if data.Err? {
        return Err(data.error);
      }
      var len := LenAsI64(|data.value|);
      var header := ToBeBytes(len);
      assert header + data.value == Frame(data.value);
      conn.WriteAll(header);
      conn.WriteAll(data.value);
      conn.Flush();
      r := Ok(());
    }

    /** Reads one frame and decodes it. A negative declared length is
        reported as an error (the source panics, see Wire.FrameAtAsWritten). */
    method ReadMessage<T>(decode: Decoder<T>) returns (r: Result<T>)
      requires Valid()
      modifies conn
      ensures Valid()
      ensures conn.output == old(conn.output) && conn.flushed == old(conn.flushed)
      ensures Read(r, conn.pos) == MessageAt(conn.input, old(conn.pos), decode)
    {
      var lenBuf := conn.ReadExact(8);
      if lenBuf.Err? {
        return Err(lenBuf.error);
      }
      var len := FromBeBytes(lenBuf.value);
      if len < 0 {
        return Err(NegativeLength(len));
      }
      var data := conn.ReadExact(len);
      if data.Err? {
        return Err(data.error);
      }
      r := decode(data.value);
    }

    /** Writes the command name, a newline, then the arguments as one frame. */
    method Request<M>(command: string, encode: Encoder<M>, msg: M) returns (r: Result<()>)
      requires Valid()
      modifies conn
      ensures Valid()
      ensures conn.output == old(conn.output) + RequestBytes(command, encode(msg))
      ensures conn.flushed == if encode(msg).Ok? then |conn.output| else old(conn.flushed)
      ensures conn.pos == old(conn.pos)
      ensures r == if encode(msg).Ok? then Ok(()) else Err(encode(msg).error)
    {
      conn.WriteAll(EncodeUtf8(command));
      conn.WriteU8(NEWLINE);
      r := WriteMessage(encode, msg);
    }

    /** Reads the status byte, then the result frame (status 0) or the
        error-message frame (any other status). */
    method Response<T>(decode: Decoder<T>) returns (r: Result<T>)
      requires Valid()
      modifies conn
      ensures Valid()
      ensures conn.output == old(conn.output) && conn.flushed == old(conn.flushed)
      ensures Read(r, conn.pos) == ResponseAt(conn.input, old(conn.pos), decode, text)
    {
      var statusBuf := conn.ReadExact(1);
      if statusBuf.Err? {
        return Err(statusBuf.error);
      }
      if statusBuf.value[0] > STATUS_OK {
        var s := ReadMessage(text);
        if s.Err? {
          return Err(s.error);
        }
        return Err(Other(s.value));
      } else {
        r := ReadMessage(decode);
      }
    }

    /** What one facade call does to the connection: `request` writes the
        command and its arguments, and, when the arguments could be encoded,
        `response` reads the reply. */
    twostate predicate Dispatched<R>(command: string, new payload: Result<seq<byte>>, decode: Decoder<R>, new r: Result<R>)
      reads this, conn
    {
      && conn.Valid()
      && old(conn.pos) <= |conn.input|
      && conn.output == old(conn.output) + RequestBytes(command, payload)
      && conn.flushed == (if payload.Ok? then |conn.output| else old(conn.flushed))
      && Read(r, conn.pos) == CallAt(payload, conn.input, old(conn.pos), decode, text)
    }

    /** `request` then `response`, the body of every facade method. */
    method Call<M, R>(command: string, encode: Encoder<M>, msg: M, decode: Decoder<R>) returns (r: Result<R>)
      requires Valid()
      modifies conn
      ensures Valid() && Dispatched(command, encode(msg), decode, r)
    {
      var sent := Request(command, encode, msg);
      if sent.Err? {
        return Err(sent.error);
      }
      r := Response(decode);
    }

    // -------------------------------------------------------------------
    // The client's own commands

    method Ping(args: Encoder<()>, unit: Decoder<()>) returns (r: Result<()>)
      requires Valid()
      modifies conn
      ensures Valid() && Dispatched("ping", args(()), unit, r)
    {
      r := Call("ping", args, (), unit);
    }

    /** Returns a `Store` view of this client. */
    method Store() returns (s: Store)
      ensures s.client == this
    {
      s := new Store(this);
    }

    method SetCurrentBranch(branch: string, args: Encoder<string>, unit: Decoder<()>) returns (r: Result<()>)
      requires Valid()
      modifies conn
      ensures Valid() && Dispatched("set_current_branch", args(branch), unit, r)
    {
      r := Call("set_current_branch", args, branch, unit);
    }

    method GetCurrentBranch(args: Encoder<()>) returns (r: Result<string>)
      requires Valid()
      modifies conn
      ensures Valid() && Dispatched("get_current_branch", args(()), text, r)
    {
      r := Call("get_current_branch", args, (), text);
    }
  }

  /** The `Store` wrapper: store-level commands over a client's connection. */
  class Store {
    const client: Client

    constructor (client: Client)
      ensures this.client == client
    {
      this.client := client;
    }

    method Set<T>(key: Key, value: T, info: Info, args: Encoder<(Key, Info, T)>, unit: Decoder<()>) returns (r: Result<()>)
      requires client.Valid()
      modifies client.conn
      ensures client.Valid() && client.Dispatched("store.set", args((key, info, value)), unit, r)
    {
      r := client.Call("store.set", args, (key, info, value), unit);
    }

    method SetTree<T>(key: Key, tree: Tree<T>, info: Info, args: Encoder<(Key, Info, Tree<T>)>, unit: Decoder<()>) returns (r: Result<()>)
      requires client.Valid()
      modifies client.conn
      ensures client.Valid() && client.Dispatched("store.set_tree", args((key, info, tree)), unit, r)
    {
      r := client.Call("store.set_tree", args, (key, info, tree), unit);
    }

    method Find<T>(key: Key, args: Encoder<Key>, found: Decoder<Option<T>>) returns (r: Result<Option<T>>)
      requires client.Valid()
      modifies client.conn
      ensures client.Valid() && client.Dispatched("store.find", args(key), found, r)
    {
      r := client.Call("store.find", args, key, found);
    }

    method FindTree<T>(key: Key, args: Encoder<Key>, found: Decoder<Option<Tree<T>>>) returns (r: Result<Option<Tree<T>>>)
      requires client.Valid()
      modifies client.conn
      ensures client.Valid() && client.Dispatched("store.find_tree", args(key), found, r)
    {
      r := client.Call("store.find_tree", args, key, found);
    }

    method Mem(key: Key, args: Encoder<Key>, flag: Decoder<bool>) returns (r: Result<bool>)
      requires client.Valid()
      modifies client.conn
      ensures client.Valid() && client.Dispatched("store.mem", args(key), flag, r)
    {
      r := client.Call("store.mem", args, key, flag);
    }

    method MemTree(key: Key, args: Encoder<Key>, flag: Decoder<bool>) returns (r: Result<bool>)
      requires client.Valid()
      modifies client.conn
      ensures client.Valid() && client.Dispatched("store.mem_tree", args(key), flag, r)
    {
      r := client.Call("store.mem_tree", args, key, flag);
    }

    method Remove(key: Key, info: Info, args: Encoder<(Key, Info)>, unit: Decoder<()>) returns (r: Result<()>)
      requires client.Valid()
      modifies client.conn
      ensures client.Valid() && client.Dispatched("store.remove", args((key, info)), unit, r)
    {
      r := client.Call("store.remove", args, (key, info), unit);
    }
  }

  // ---------------------------------------------------------------------
  // Commit

  /** `Commit::create`: the arguments go as (info, parents, node). */
  method CommitCreate(client: Client, node: Hash, parents: seq<Hash>, info: Info,
                      args: Encoder<(Info, seq<Hash>, Hash)>, commit: Decoder<Commit>) returns (r: Result<Commit>)
    requires client.Valid()
    modifies client.conn
    ensures client.Valid() && client.Dispatched("commit.v", args((info, parents, node)), commit, r)
  {
    r := client.Call("commit.v", args, (info, parents, node), commit);
  }

  method CommitOfHash(client: Client, hash: Hash, args: Encoder<Hash>, found: Decoder<Option<Commit>>) returns (r: Result<Option<Commit>>)
    requires client.Valid()
    modifies client.conn
    ensures client.Valid() && client.Dispatched("commit.of_hash", args(hash), found, r)
  {
    r := client.Call("commit.of_hash", args, hash, found);
  }

  // ---------------------------------------------------------------------
  // Tree: every operation sends the tree handle first and, for the edits,
  // returns the handle of a new tree

  method TreeAdd<T>(tree: Tree<T>, client: Client, key: Key, value: T,
                    args: Encoder<(Tree<T>, Key, T)>, result: Decoder<Tree<T>>) returns (r: Result<Tree<T>>)
    requires client.Valid()
    modifies client.conn
    ensures client.Valid() && client.Dispatched("tree.add", args((tree, key, value)), result, r)
  {
    r := client.Call("tree.add", args, (tree, key, value), result);
  }

  method TreeAddTree<T>(tree: Tree<T>, client: Client, key: Key, subtree: Tree<T>,
                        args: Encoder<(Tree<T>, Key, Tree<T>)>, result: Decoder<Tree<T>>) returns (r: Result<Tree<T>>)
    requires client.Valid()
    modifies client.conn
    ensures client.Valid() && client.Dispatched("tree.add_tree", args((tree, key, subtree)), result, r)
  {
    r := client.Call("tree.add_tree", args, (tree, key, subtree), result);
  }

  method TreeRemove<T>(tree: Tree<T>, client: Client, key: Key,
                       args: Encoder<(Tree<T>, Key)>, result: Decoder<Tree<T>>) returns (r: Result<Tree<T>>)
    requires client.Valid()
    modifies client.conn
    ensures client.Valid() && client.Dispatched("tree.remove", args((tree, key)), result, r)
  {
    r := client.Call("tree.remove", args, (tree, key), result);
  }

  method TreeFind<T>(tree: Tree<T>, client: Client, key: Key,
                     args: Encoder<(Tree<T>, Key)>, found: Decoder<Option<T>>) returns (r: Result<Option<T>>)
    requires client.Valid()
    modifies client.conn
    ensures client.Valid() && client.Dispatched("tree.find", args((tree, key)), found, r)
  {
    r := client.Call("tree.find", args, (tree, key), found);
  }

  method TreeFindTree<T>(tree: Tree<T>, client: Client, key: Key,
                         args: Encoder<(Tree<T>, Key)>, found: Decoder<Option<Tree<T>>>) returns (r: Result<Option<Tree<T>>>)
    requires client.Valid()
    modifies client.conn
    ensures client.Valid() && client.Dispatched("tree.find_tree", args((tree, key)), found, r)
  {
    r := client.Call("tree.find_tree", args, (tree, key), found);
  }

  method TreeMem<T>(tree: Tree<T>, client: Client, key: Key,
                    args: Encoder<(Tree<T>, Key)>, flag: Decoder<bool>) returns (r: Result<bool>)
    requires client.Valid()
    modifies client.conn
    ensures client.Valid() && client.Dispatched("tree.mem", args((tree, key)), flag, r)
  {
    r := client.Call("tree.mem", args, (tree, key), flag);
  }

  method TreeMemTree<T>(tree: Tree<T>, client: Client, key: Key,
                        args: Encoder<(Tree<T>, Key)>, flag: Decoder<bool>) returns (r: Result<bool>)
    requires client.Valid()
    modifies client.conn
    ensures client.Valid() && client.Dispatched("tree.mem_tree", args((tree, key)), flag, r)
  {
    r := client.Call("tree.mem_tree", args, (tree, key), flag);
  }
}
