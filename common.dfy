/** The helpers of common.h that the server core relies on: the readiness
    mask chosen by `addfd`, and `trim`, which strips the space character
    from both ends of a C string. */
module Common {

  datatype Option<T> = None | Some(value: T)

  /** Linux values of the epoll event bits the server reads and sets. */
  const EPOLLIN: bv32 := 0x001
  const EPOLLERR: bv32 := 0x008
  const EPOLLHUP: bv32 := 0x010
  const EPOLLET: bv32 := 0x8000_0000

  /** The event mask `addfd` registers a descriptor with: always readable,
      edge-triggered exactly when `enableEt` is set, and no other bit. */
  function EventMask(enableEt: bool): (mask: bv32)
    ensures mask & EPOLLIN != 0
    ensures (mask & EPOLLET != 0) == enableEt
    ensures mask & !(EPOLLIN | EPOLLET) == 0
  {
    if enableEt then EPOLLIN | EPOLLET else EPOLLIN
  }

  // ---------------------------------------------------------------------
  // trim
  // ---------------------------------------------------------------------

  /** Only the space character counts as blank for `trim`. */
  predicate IsBlank(s: string)
  {
    forall k | 0 <= k < |s| :: s[k] == ' '
  }

  /** The intended meaning of `trim`: drop a space from either end until
      neither end is a space. Total: a blank string trims to "". */
  function Trimmed(s: string): (t: string)
    ensures |t| <= |s|
    decreases |s|
  {
    if s == [] then []
    else if s[0] == ' ' then Trimmed(s[1..])
    else if s[|s| - 1] == ' ' then Trimmed(s[..|s| - 1])
    else s
  }

  /** What trimming leaves: nothing exactly when the string is blank, and
      otherwise a string with a non-space character at both ends. */
  lemma {:induction false} TrimmedShape(s: string)
    ensures Trimmed(s) == [] <==> IsBlank(s)
    ensures Trimmed(s) != [] ==> Trimmed(s)[0] != ' ' && Trimmed(s)[|Trimmed(s)| - 1] != ' '
    decreases |s|
  {
    if s == [] {
    } else if s[0] == ' ' {
      TrimmedShape(s[1..]);
      assert IsBlank(s) <==> IsBlank(s[1..]) by {
        if IsBlank(s[1..]) {
          forall k | 0 <= k < |s| ensures s[k] == ' ' {
            if k > 0 { assert s[k] == s[1..][k - 1]; }
          }
        }
      }
    } else if s[|s| - 1] == ' ' {
      TrimmedShape(s[..|s| - 1]);
      assert !IsBlank(s[..|s| - 1]) by { assert s[..|s| - 1][0] == s[0]; }
    }
  }

  /** Given the first non-space index `i` and the last one `j`, the trimmed
      string is exactly the slice between them: interior spaces are kept. */
  lemma {:induction false} TrimmedIsSlice(s: string, i: nat, j: nat)
    requires i <= j < |s|
    requires s[i] != ' ' && s[j] != ' '
    requires forall k | 0 <= k < i :: s[k] == ' '
    requires forall k | j < k < |s| :: s[k] == ' '
    ensures Trimmed(s) == s[i..j + 1]
    decreases |s|
  {
    if i > 0 {
      var s' := s[1..];
      assert s[0] == ' ';
      assert Trimmed(s) == Trimmed(s');
      forall k | 0 <= k < i - 1 ensures s'[k] == ' ' {
        assert s'[k] == s[k + 1];
      }
      forall k | j - 1 < k < |s'| ensures s'[k] == ' ' {
        assert s'[k] == s[k + 1];
      }
      TrimmedIsSlice(s', i - 1, j - 1);
      assert s'[i - 1..j] == s[i..j + 1];
    } else if j < |s| - 1 {
      var s' := s[..|s| - 1];
      assert s[0] != ' ' && s[|s| - 1] == ' ';
      assert Trimmed(s) == Trimmed(s');
      TrimmedIsSlice(s', i, j);
      assert s'[i..j + 1] == s[i..j + 1];
    } else {
      assert s[0] != ' ' && s[|s| - 1] != ' ';
      assert s[i..j + 1] == s;
    }
  }

  /** Padding a string that has no space at either end with blanks on both
      sides, then trimming, gives the string back. */
  lemma PaddedTrimmed(pre: string, core: string, post: string)
    requires IsBlank(pre) && IsBlank(post)
    requires core != [] && core[0] != ' ' && core[|core| - 1] != ' '
    ensures Trimmed(pre + core + post) == core
  {
    var s := pre + core + post;
    var i, j := |pre|, |pre| + |core| - 1;
    assert s[i] == core[0] && s[j] == core[|core| - 1];
    forall k | 0 <= k < i ensures s[k] == ' ' {
      assert s[k] == pre[k];
    }
    forall k | j < k < |s| ensures s[k] == ' ' {
      assert s[k] == post[k - |pre| - |core|];
    }
    TrimmedIsSlice(s, i, j);
    assert s[i..j + 1] == core;
  }

  /** A trailing space never survives trimming. */
  lemma {:induction false} TrimmedDropsTrailingSpace(s: string)
    ensures Trimmed(s + " ") == Trimmed(s)
    decreases |s|
  {
    var s' := s + " ";
    if s == [] {
      assert s'[1..] == [];
    } else if s[0] == ' ' {
      assert s'[1..] == s[1..] + " ";
      TrimmedDropsTrailingSpace(s[1..]);
    } else {
      assert s'[..|s'| - 1] == s;
    }
  }

  /** Trimming twice is trimming once. */
  lemma TrimmedIdempotent(s: string)
    ensures Trimmed(Trimmed(s)) == Trimmed(s)
  {
    TrimmedShape(s);
  }

  /** `trim` as written (common.h): a forward loop advances `i` past the
      leading spaces, a backward loop retreats `j` from `strlen - 1` past the
      trailing spaces, and the slice from `i` to `j` is copied out. The
      caller must hand over a string with a non-space character: otherwise
      the backward loop runs off the front of the buffer. */
  method Trim(s: string) returns (t: string)
    requires !IsBlank(s)
    ensures t == Trimmed(s)
  {
    ghost var w :| 0 <= w < |s| && s[w] != ' ';
    var i := 0;
    while s[i] == ' '
      invariant 0 <= i <= w
      invariant forall k | 0 <= k < i :: s[k] == ' '
      decreases w - i
    {
      i := i + 1;
    }
    var j := |s| - 1;
    while s[j] == ' '
      invariant i <= j < |s|
      invariant forall k | j < k < |s| :: s[k] == ' '
      decreases j
    {
      j := j - 1;
    }
    t := s[i..j + 1];
    TrimmedIsSlice(s, i, j);
  }

  // ---------------------------------------------------------------------
  // trim as written, on an empty or all-space string
  // ---------------------------------------------------------------------

  /** The largest `size_t`, also `std::string::npos`. */
  const SIZE_MAX: nat := 0xFFFF_FFFF_FFFF_FFFF

  /** `j - 1` on an unsigned 64-bit `size_t`: subtraction modulo 2^64, so
      zero wraps to SIZE_MAX. */
  function SizeDec(j: nat): (r: nat)
    requires j <= SIZE_MAX
    ensures r == (j + SIZE_MAX) % (SIZE_MAX + 1)
  {
    if j == 0 then SIZE_MAX else j - 1
  }

  /** Number of leading spaces: where `trim`'s forward loop stops (at the
      latest on the terminating NUL, which is not a space). */
  function LeadingSpaces(s: string): (n: nat)
    ensures n <= |s|
  {
    if s != [] && s[0] == ' ' then 1 + LeadingSpaces(s[1..]) else 0
  }

  /** The forward scan stops at the first non-space character. */
  lemma {:induction false} LeadingSpacesStop(s: string)
    ensures forall k | 0 <= k < LeadingSpaces(s) :: s[k] == ' '
    ensures LeadingSpaces(s) < |s| ==> s[LeadingSpaces(s)] != ' '
  {
    if s != [] && s[0] == ' ' {
      LeadingSpacesStop(s[1..]);
      assert forall k | 1 <= k < LeadingSpaces(s) :: s[k] == s[1..][k - 1];
    }
  }

  /** `trim`'s backward loop as written, started at index `j`: the index it
      stops at, or None once it reads `strIn[j]` outside the string (at or
      past the terminator, which from the start `strlen - 1` only happens
      after `j` wrapped around). */
  function BackScanAsWritten(s: string, j: nat): (r: Option<nat>)
    requires |s| < SIZE_MAX && j <= SIZE_MAX
    ensures r.Some? ==> r.value < |s|
    decreases if j < |s| then j + 1 else 0
  {
    if j >= |s| then None
    else if s[j] != ' ' then Some(j)
    else BackScanAsWritten(s, SizeDec(j))
  }

  /** `trim` as written: None when it reads outside `strIn`. */
  function TrimAsWritten(s: string): (r: Option<string>)
    requires |s| < SIZE_MAX
  {
    var i := LeadingSpaces(s);
    var j := BackScanAsWritten(s, SizeDec(|s|));
    if j.Some? && i <= j.value then Some(s[i..j.value + 1]) else None
  }

  /** From any start, the backward scan of an all-space string reads
      outside the string. */
  lemma {:induction false} BackScanRunsOff(s: string, j: nat)
    requires |s| < SIZE_MAX && j <= SIZE_MAX
    requires IsBlank(s)
    ensures BackScanAsWritten(s, j) == None
    decreases if j < |s| then j + 1 else 0
  {
    if j < |s| {
      BackScanRunsOff(s, SizeDec(j));
    }
  }

  /** From index `j`, the backward scan stops at the last non-space
      character at or before `j`, when there is one. */
  lemma {:induction false} BackScanFindsLast(s: string, j: nat, w: nat)
    requires |s| < SIZE_MAX && w <= j < |s|
    requires s[w] != ' '
    requires forall k | w < k <= j :: s[k] == ' '
    ensures BackScanAsWritten(s, j) == Some(w)
    decreases j
  {
    if j > w {
      BackScanFindsLast(s, j - 1, w);
    }
  }

  /** Index of the last non-space character. */
  ghost function LastNonSpace(s: string): (w: nat)
    requires !IsBlank(s)
    ensures w < |s| && s[w] != ' '
    ensures forall k | w < k < |s| :: s[k] == ' '
  {
    if s[|s| - 1] != ' ' then |s| - 1
    else
      assert !IsBlank(s[..|s| - 1]) by {
        var x :| 0 <= x < |s| && s[x] != ' ';
        assert s[..|s| - 1][x] == s[x];
      }
      var w := LastNonSpace(s[..|s| - 1]);
      assert forall k | w < k < |s| - 1 :: s[k] == s[..|s| - 1][k];
      w
  }

  /** On a string with a non-space character, `trim` as written computes the
      intended result. */
  lemma TrimAsWrittenAgrees(s: string)
    requires |s| < SIZE_MAX && !IsBlank(s)
    ensures TrimAsWritten(s) == Some(Trimmed(s))
  {
    var i := LeadingSpaces(s);
    var w := LastNonSpace(s);
    LeadingSpacesStop(s);
    assert i <= w;
    BackScanFindsLast(s, |s| - 1, w);
    assert BackScanAsWritten(s, SizeDec(|s|)) == Some(w);
    TrimAsWrittenFound(s, i, w);
    TrimmedIsSlice(s, i, w);
  }

  /** `trim` as written, once both scans have stopped inside the string. */
  lemma TrimAsWrittenFound(s: string, i: nat, w: nat)
    requires |s| < SIZE_MAX && i == LeadingSpaces(s) && i <= w
    requires BackScanAsWritten(s, SizeDec(|s|)) == Some(w)
    ensures TrimAsWritten(s) == Some(s[i..w + 1])
  {
    var j := BackScanAsWritten(s, SizeDec(|s|));
    assert j.Some? && j.value == w;
    assert s[i..j.value + 1] == s[i..w + 1];
  }

  /** The defect: on an empty or all-space string `trim` as written reads
      outside its input (`strlen - 1` wraps on "", and `--j` wraps below
      index 0 on "  "). */
  lemma TrimAsWrittenOutOfBounds(s: string)
    requires |s| < SIZE_MAX && IsBlank(s)
    ensures TrimAsWritten(s) == None
    ensures Trimmed(s) == []
  {
    BackScanRunsOff(s, SizeDec(|s|));
    TrimmedShape(s);
  }
}
