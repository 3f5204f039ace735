/**
 What several parts of the kernel model share.
 */
module Common {
  const NAME_LEN: nat := 16      // MAX_FILE_NAME_LEN
  const MAX_LBA: nat := 163839   // max_lba: (80*1024*1024/512) - 1

  datatype Option<+T> = None | Some(value: T)

  predicate NoNul(s: string) { forall i :: 0 <= i < |s| ==> s[i] != '\0' }

  lemma Assoc<T>(a: seq<T>, b: seq<T>, c: seq<T>)
    ensures a + b + c == a + (b + c)
  {
  }
}
