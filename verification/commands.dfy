/** The command decoder: a message buffer is mapped to one of the seven
    protocol commands by literal prefix comparison, in a fixed priority order
    (get_command in srcs/host_app/server_main.c). */
module Commands {
  import opened Wire

  datatype Command =
    | InitPlatform
    | InitKernel
    | StartKernel
    | WriteData
    | ReadData
    | CleanKernel
    | GetImage
    | Unrecognized   // the -1 of get_command

  /** The order in which get_command tries the names. */
  function Rank(c: Command): nat {
    match c
    case InitPlatform => 0
    case InitKernel => 1
    case StartKernel => 2
    case WriteData => 3
    case ReadData => 4
    case CleanKernel => 5
    case GetImage => 6
    case Unrecognized => 7
  }

  /** The wire literal of each command. The literals live in protocol.h,
      which is not part of this model; they are taken to be the macro names. */
  function Name(c: Command): (s: string)
    requires c != Unrecognized
    ensures s != [] && '\0' !in s
  {
    match c
    case InitPlatform => "INIT_PLATFORM"
    case InitKernel => "INIT_KERNEL"
    case StartKernel => "START_KERNEL"
    case WriteData => "WRITE_DATA"
    case ReadData => "READ_DATA"
    case CleanKernel => "CLEAN_KERNEL"
    case GetImage => "GET_IMAGE"
  }

  /** strncmp(token, name, strlen(name)) == 0. Since a name holds no NUL,
      a NUL in the token before |name| characters is a mismatch, exactly as
      a differing character is; a token shorter than the name never matches. */
  predicate IsPrefix(name: string, token: seq<char>) {
    |name| <= |token| && token[..|name|] == name
  }

  predicate Matches(c: Command, token: seq<char>) {
    c != Unrecognized && IsPrefix(Name(c), token)
  }

  /** get_command: the first name, in priority order, that prefixes the token. */
  function GetCommand(token: seq<char>): (r: Command)
    ensures r != Unrecognized ==> Matches(r, token)
    ensures forall c :: Rank(c) < Rank(r) ==> !Matches(c, token)
    ensures r == Unrecognized <==> forall c :: !Matches(c, token)
  {
    if Matches(InitPlatform, token) then InitPlatform
    else if Matches(InitKernel, token) then InitKernel
    else if Matches(StartKernel, token) then StartKernel
    else if Matches(WriteData, token) then WriteData
    else if Matches(ReadData, token) then ReadData
    else if Matches(CleanKernel, token) then CleanKernel
    else if Matches(GetImage, token) then GetImage
    else Unrecognized
  }

  lemma MismatchAt(name: string, token: seq<char>, i: nat)
    requires i < |name| && i < |token| && name[i] != token[i]
    ensures !IsPrefix(name, token)
  {
    if |name| <= |token| {
      assert token[..|name|][i] == token[i];
    }
  }

  /** Every name, whatever follows it in the buffer, decodes to its own
      command: no name that is tried earlier is a prefix of a later one. */
  lemma NameDecodes(c: Command, rest: seq<char>)
    requires c != Unrecognized
    ensures GetCommand(Name(c) + rest) == c
  {
    var token := Name(c) + rest;
    assert token[..|Name(c)|] == Name(c);
    forall d | Rank(d) < Rank(c)
      ensures !Matches(d, token)
    {
      if d == InitPlatform && c == InitKernel {
        MismatchAt(Name(d), token, 5);
      } else {
        MismatchAt(Name(d), token, 0);
      }
    }
  }

  /** recv(sock, msg, sizeof(msg), 0): the bytes read overwrite a prefix of
      the buffer; the rest of the buffer keeps what earlier messages left. */
  function Receive(buf: seq<char>, bytes: seq<char>): (r: seq<char>)
    requires |buf| == MSG_LENGTH
    ensures |r| == MSG_LENGTH
    ensures forall i :: 0 <= i < MSG_LENGTH ==> r[i] == if i < |bytes| then bytes[i] else buf[i]
  {
    if |bytes| >= |buf| then bytes[..|buf|] else bytes + buf[|bytes|..]
  }

  /** Because the buffer is never cleared, a message that names no command
      is still decoded as the command whose tail an earlier message left:
      "INIT_" after "INIT_KERNEL" is taken for INIT_KERNEL. */
  lemma StaleTailDecodes(buf: seq<char>)
    requires |buf| == MSG_LENGTH && buf[..|Name(InitKernel)|] == Name(InitKernel)
    ensures forall c :: !Matches(c, "INIT_")
    ensures GetCommand(Receive(buf, "INIT_")) == InitKernel
  {
    var token := Receive(buf, "INIT_");
    assert token[..11] == Name(InitKernel) by {
      forall i | 0 <= i < 11 ensures token[i] == Name(InitKernel)[i] {
        assert buf[..11][i] == buf[i];
      }
    }
    NameDecodes(InitKernel, token[11..]);
    assert token == Name(InitKernel) + token[11..];
  }
}
