/**
 The text form of hstore_io.c: the word scanner, the parser that drives it, and the
 printer.  A text is read up to its end or its first zero byte, as a C string is.
 */
module HStoreText {
  import opened HStorePairs
  import opened HStoreUnique

  const NUL: char := '\0'
  const MAX_LEN: nat := 0x3fff_ffff

  datatype Error = SyntaxError(near: char, pos: nat) | UnexpectedEnd | TooLong

  datatype Result<T> = Ok(value: T) | Err(error: Error)

  function CharAt(s: string, ptr: nat): char { if ptr < |s| then s[ptr] else NUL }

  /** isspace in the C locale. */
  predicate IsSpace(c: char) {
    c == ' ' || c == '\t' || c == '\n' || c == '\r' || c == '\U{0b}' || c == '\U{0c}'
  }

  // ----- get_val -----

  datatype ValState = WaitVal | InVal | InEscVal | WaitEscIn | WaitEscEscIn

  /** A word and the place of its last character or its delimiter; or no word before the end. */
  datatype Scan = Scan(found: bool, word: string, escaped: bool, ptr: nat)

  /** get_val from a state in the middle of its loop. */
  function Val(s: string, ptr: nat, st: ValState, ignoreeq: bool, word: string, escaped: bool): (r: Result<Scan>)
    requires ptr <= |s| && (st != WaitVal ==> ptr > 0)
    ensures r.Ok? ==> ptr <= r.value.ptr + 1 <= |s| + 1 && (st == WaitVal ==> ptr <= r.value.ptr)
    ensures r.Ok? && r.value.found ==> r.value.ptr < |s|
    decreases |s| - ptr
  {
    var c := CharAt(s, ptr);
    match st
    case WaitVal =>
      if c == '"' then Val(s, ptr + 1, InEscVal, ignoreeq, word, true)
      else if c == NUL then Ok(Scan(false, word, escaped, ptr))
      else if c == '=' && !ignoreeq then Err(SyntaxError(c, ptr))
      else if c == '\\' then Val(s, ptr + 1, WaitEscIn, ignoreeq, word, escaped)
      else if !IsSpace(c) then Val(s, ptr + 1, InVal, ignoreeq, word + [c], escaped)
      else Val(s, ptr + 1, WaitVal, ignoreeq, word, escaped)
    case InVal =>
      if c == '\\' then Val(s, ptr + 1, WaitEscIn, ignoreeq, word, escaped)
      else if c == '=' && !ignoreeq then Ok(Scan(true, word, escaped, ptr - 1))
      else if c == ',' && ignoreeq then Ok(Scan(true, word, escaped, ptr - 1))
      else if IsSpace(c) then Ok(Scan(true, word, escaped, ptr))
      else if c == NUL then Ok(Scan(true, word, escaped, ptr - 1))
      else Val(s, ptr + 1, InVal, ignoreeq, word + [c], escaped)
    case InEscVal =>
      if c == '\\' then Val(s, ptr + 1, WaitEscEscIn, ignoreeq, word, escaped)
      else if c == '"' then Ok(Scan(true, word, escaped, ptr))
      else if c == NUL then Err(UnexpectedEnd)
      else Val(s, ptr + 1, InEscVal, ignoreeq, word + [c], escaped)
    case WaitEscIn =>
      if c == NUL then Err(UnexpectedEnd)
      else Val(s, ptr + 1, InVal, ignoreeq, word + [c], escaped)
    case WaitEscEscIn =>
      if c == NUL then Err(UnexpectedEnd)
      else Val(s, ptr + 1, InEscVal, ignoreeq, word + [c], escaped)
  }

  // ----- parse_hstore -----

  datatype ParseState = WKey | WVal | WEq | WGt | WDel

  /** pg_strcasecmp(word, "null") == 0, for a word of four characters. */
  predicate IsNullWord(w: string) {
    && |w| == 4
    && (w[0] == 'n' || w[0] == 'N') && (w[1] == 'u' || w[1] == 'U')
    && (w[2] == 'l' || w[2] == 'L') && (w[3] == 'l' || w[3] == 'L')
  }

  function PairOf(key: string, v: Scan): Pairs {
    Pairs(key, if !v.escaped && IsNullWord(v.word) then None else Some(v.word), true)
  }

  /** parse_hstore from a state in the middle of its loop; key is the key just read. */
  function Parse(s: string, ptr: nat, st: ParseState, key: string, pairs: seq<Pairs>): Result<seq<Pairs>>
    requires ptr <= |s|
    decreases |s| - ptr
  {
    var c := CharAt(s, ptr);
    match st
    case WKey =>
      (match Val(s, ptr, WaitVal, false, [], false)
       case Err(e) => Err(e)
       case Ok(v) =>
         if !v.found then Ok(pairs)
         else if |v.word| > MAX_LEN then Err(TooLong)
         else Parse(s, v.ptr + 1, WEq, v.word, pairs))
    case WEq =>
      if c == '=' then Parse(s, ptr + 1, WGt, key, pairs)
      else if c == NUL then Err(UnexpectedEnd)
      else if !IsSpace(c) then Err(SyntaxError(c, ptr))
      else Parse(s, ptr + 1, WEq, key, pairs)
    case WGt =>
      if c == '>' then Parse(s, ptr + 1, WVal, key, pairs)
      else if c == NUL then Err(UnexpectedEnd)
      else Err(SyntaxError(c, ptr))
    case WVal =>
      (match Val(s, ptr, WaitVal, true, [], false)
       case Err(e) => Err(e)
       case Ok(v) =>
         if !v.found then Err(UnexpectedEnd)
         else if |v.word| > MAX_LEN then Err(TooLong)
         else Parse(s, v.ptr + 1, WDel, [], pairs + [PairOf(key, v)]))
    case WDel =>
      if c == ',' then Parse(s, ptr + 1, WKey, [], pairs)
      else if c == NUL then Ok(pairs)
      else if !IsSpace(c) then Err(SyntaxError(c, ptr))
      else Parse(s, ptr + 1, WDel, key, pairs)
  }

  /** What get_val reports through its result, its out-parameter and the parser state. */
  function Reported(r: Result<bool>, word: string, escaped: bool, ptr: nat): Result<Scan> {
    match r
    case Err(e) => Err(e)
    case Ok(found) => Ok(Scan(found, word, escaped, ptr))
  }

  /** HSParser, without the bookkeeping of buffer sizes. */
  class HSParser {
    const begin: string
    var ptr: nat
    var word: string
    var pairs: seq<Pairs>

    constructor (text: string)
      ensures begin == text && ptr == 0 && word == [] && pairs == []
    {
      begin := text;
      ptr := 0;
      word, pairs := [], [];
    }

    /** One pass through the loop of get_val; done says that it returns. */
    method ScanStep(st: ValState, ignoreeq: bool, escaped: bool)
      returns (st': ValState, escaped': bool, done: bool, r: Result<bool>)
      requires ptr <= |begin| && (st != WaitVal ==> ptr > 0)
      modifies this`ptr, this`word
      ensures !done ==> ptr == old(ptr) + 1 <= |begin|
      ensures Val(begin, old(ptr), st, ignoreeq, old(word), escaped)
        == if done then Reported(r, word, escaped', ptr) else Val(begin, ptr, st', ignoreeq, word, escaped')
    {
      var c := CharAt(begin, ptr);
      st', escaped', done, r := st, escaped, false, Ok(true);
      match st {
        case WaitVal =>
          if c == '"' {
            escaped', st' := true, InEscVal;
          } else if c == NUL {
            done, r := true, Ok(false);
          } else if c == '=' && !ignoreeq {
            done, r := true, Err(SyntaxError(c, ptr));
          } else if c == '\\' {
            st' := WaitEscIn;
          } else if !IsSpace(c) {
            word := word + [c];
            st' := InVal;
          }
        case InVal =>
          if c == '\\' {
            st' := WaitEscIn;
          } else if (c == '=' && !ignoreeq) || (c == ',' && ignoreeq) {
            ptr, done := ptr - 1, true;
          } else if IsSpace(c) {
            done := true;
          } else if c == NUL {
            ptr, done := ptr - 1, true;
          } else {
            word := word + [c];
          }
        case InEscVal =>
          if c == '\\' {
            st' := WaitEscEscIn;
          } else if c == '"' {
            done := true;
          } else if c == NUL {
            done, r := true, Err(UnexpectedEnd);
          } else {
            word := word + [c];
          }
        case WaitEscIn =>
          if c == NUL {
            done, r := true, Err(UnexpectedEnd);
          } else {
            word := word + [c];
            st' := InVal;
          }
        case WaitEscEscIn =>
          if c == NUL {
            done, r := true, Err(UnexpectedEnd);
          } else {
            word := word + [c];
            st' := InEscVal;
          }
      }
      if !done { ptr := ptr + 1; }
    }

    /** get_val: true if a word was found. */
    method GetVal(ignoreeq: bool) returns (r: Result<bool>, escaped: bool)
      requires ptr <= |begin|
      modifies this`ptr, this`word
      ensures Val(begin, old(ptr), WaitVal, ignoreeq, [], false) == Reported(r, word, escaped, ptr)
    {
      word, escaped, r := [], false, Ok(false);
      var st, done := WaitVal, false;
      while !done
        invariant !done ==> ptr <= |begin| && (st != WaitVal ==> ptr > 0)
        invariant Val(begin, old(ptr), WaitVal, ignoreeq, [], false)
          == if done then Reported(r, word, escaped, ptr) else Val(begin, ptr, st, ignoreeq, word, escaped)
        decreases !done, |begin| - ptr
      {
        st, escaped, done, r := ScanStep(st, ignoreeq, escaped);
      }
    }

    /** The key branch of parse_hstore; None if there is no further key. */
    method ReadKey(ghost k: string) returns (r: Result<Option<string>>)
      requires ptr <= |begin|
      modifies this`ptr, this`word
      ensures r.Ok? && r.value.Some? ==> old(ptr) < ptr <= |begin|
      ensures Parse(begin, old(ptr), WKey, k, pairs) == match r
        case Err(e) => Err(e)
        case Ok(None) => Ok(pairs)
        case Ok(Some(key)) => Parse(begin, ptr, WEq, key, pairs)
    {
      var found, escaped := GetVal(false);
      match found
      case Err(e) => return Err(e);
      case Ok(b) =>
        if !b { return Ok(None); }
        if |word| > MAX_LEN { return Err(TooLong); }
        ptr := ptr + 1;
        r := Ok(Some(word));
    }

    /** The value branch: the pair is added to the list. */
    method ReadValue(key: string) returns (r: Result<bool>)
      requires ptr <= |begin|
      modifies this
      ensures r.Ok? ==> old(ptr) < ptr <= |begin|
      ensures Parse(begin, old(ptr), WVal, key, old(pairs)) == match r
        case Err(e) => Err(e)
        case Ok(_) => Parse(begin, ptr, WDel, [], pairs)
    {
      var found, escaped := GetVal(true);
      match found
      case Err(e) => return Err(e);
      case Ok(b) =>
        if !b { return Err(UnexpectedEnd); }
        if |word| > MAX_LEN { return Err(TooLong); }
        var isnull := |word| == 4 && !escaped && IsNullWord(word);
        pairs := pairs + [Pairs(key, if isnull then None else Some(word), true)];
        ptr := ptr + 1;
        r := Ok(true);
    }

    /** The branches of parse_hstore that look at one character. */
    method ReadMark(st: ParseState, ghost key: string) returns (st': ParseState, done: bool, e: Option<Error>)
      requires ptr <= |begin| && st in [WEq, WGt, WDel]
      modifies this`ptr
      ensures !done ==> ptr == old(ptr) + 1 <= |begin|
      ensures Parse(begin, old(ptr), st, key, pairs)
        == if !done then Parse(begin, ptr, st', key, pairs) else if e.Some? then Err(e.value) else Ok(pairs)
    {
      var c := CharAt(begin, ptr);
      st', done, e := st, false, None;
      if st == WEq && c == '=' {
        st' := WGt;
      } else if st == WGt && c == '>' {
        st' := WVal;
      } else if st == WDel && c == ',' {
        st' := WKey;
      } else if c == NUL {
        done := true;
        if st != WDel { e := Some(UnexpectedEnd); }
      } else if st == WGt || !IsSpace(c) {
        done, e := true, Some(SyntaxError(c, ptr));
      }
      if !done { ptr := ptr + 1; }
    }

    /** One pass through the loop of parse_hstore. */
    method ParseStep(st: ParseState, key: string) returns (st': ParseState, key': string, done: bool, e: Option<Error>)
      requires ptr <= |begin|
      modifies this
      ensures !done ==> old(ptr) < ptr <= |begin|
      ensures Parse(begin, old(ptr), st, key, old(pairs))
        == if !done then Parse(begin, ptr, st', key', pairs) else if e.Some? then Err(e.value) else Ok(pairs)
    {
      key' := key;
      if st == WKey {
        var r := ReadKey(key);
        match r
        case Err(f) => return st, key, true, Some(f);
        case Ok(None) => return st, key, true, None;
        case Ok(Some(k)) => return WEq, k, false, None;
      } else if st == WVal {
        var r := ReadValue(key);
        match r
        case Err(f) => return st, key, true, Some(f);
        case Ok(_) => return WDel, [], false, None;
      } else {
        st', done, e := ReadMark(st, key);
      }
    }

    /** parse_hstore. */
    method ParseHstore() returns (e: Option<Error>)
      modifies this
      ensures Parse(begin, 0, WKey, [], []) == if e.Some? then Err(e.value) else Ok(pairs)
    {
      ptr, pairs, word, e := 0, [], [], None;
      var st, key, done := WKey, [], false;
      while !done
        invariant !done ==> ptr <= |begin|
        invariant Parse(begin, 0, WKey, [], [])
          == if !done then Parse(begin, ptr, st, key, pairs) else if e.Some? then Err(e.value) else Ok(pairs)
        decreases !done, |begin| - ptr
      {
        st, key, done, e := ParseStep(st, key);
      }
    }
  }
}
