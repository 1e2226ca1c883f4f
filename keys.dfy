/**
 * Key naming of a record type: the class-level `_prefix`, `_separator` and
 * `_tablename` properties, the record key of one primary-key value and the
 * key of the table index.
 */
module Keys {
  import opened Wrappers

  /**
   * The naming attributes a record class declares. An attribute the class does
   * not set is `None`: `_redis_prefix` and `_redis_separator` fall back to the
   * defaults of `getattr`, `_table_name` to the class name.
   */
  datatype ModelConfig = ModelConfig(
    className: string,
    redisPrefix: Option<string>,
    redisSeparator: Option<string>,
    tableName: Option<string>)

  /** Python's `str.lower()` on one character (ASCII letters only). */
  function LowerChar(c: char): char {
    if 'A' <= c <= 'Z' then (c as int - 'A' as int + 'a' as int) as char else c
  }

  predicate IsUpper(c: char) {
    'A' <= c <= 'Z'
  }

  /**
   * `r` is `s` lower-cased: same length, each upper-case letter moved to its
   * lower-case counterpart (code point + 32), every other character kept.
   */
  predicate IsLowerOf(r: string, s: string) {
    |r| == |s| &&
    forall i :: 0 <= i < |s| ==>
      if IsUpper(s[i]) then r[i] as int == s[i] as int + ('a' as int - 'A' as int) else r[i] == s[i]
  }

  /** Python's `str.lower()`. */
  function Lower(s: string): (r: string)
    ensures IsLowerOf(r, s)
    ensures forall i :: 0 <= i < |r| ==> !IsUpper(r[i])
  {
    seq(|s|, i requires 0 <= i < |s| => LowerChar(s[i]))
  }

  /** Lower-casing twice is lower-casing once. */
  lemma LowerIdempotent(s: string)
    ensures Lower(Lower(s)) == Lower(s)
  {
    var r := Lower(s);
    assert Lower(r) == r by {
      assert forall i :: 0 <= i < |r| ==> Lower(r)[i] == r[i];
    }
  }

  /** `_prefix`: the declared prefix lower-cased, "" when none is declared. */
  function Prefix(c: ModelConfig): (r: string)
    ensures c.redisPrefix.None? ==> r == ""
    ensures c.redisPrefix.Some? ==> IsLowerOf(r, c.redisPrefix.value)
    ensures forall i :: 0 <= i < |r| ==> !IsUpper(r[i])
  {
    Lower(c.redisPrefix.GetOr(""))
  }

  /** `_separator`: the declared separator lower-cased, ":" when none is declared. */
  function Separator(c: ModelConfig): (r: string)
    ensures c.redisSeparator.None? ==> r == ":"
    ensures c.redisSeparator.Some? ==> IsLowerOf(r, c.redisSeparator.value)
    ensures forall i :: 0 <= i < |r| ==> !IsUpper(r[i])
  {
    var r := Lower(c.redisSeparator.GetOr(":"));
    assert c.redisSeparator.None? ==> r == ":" by {
      if c.redisSeparator.None? {
        assert r[0] == ':';
      }
    }
    r
  }

  /** `_tablename`: a declared table name verbatim, else the class name lower-cased. */
  function TableName(c: ModelConfig): (r: string)
    ensures c.tableName.Some? ==> r == c.tableName.value
    ensures c.tableName.None? ==> r == Lower(c.className)
    ensures c.tableName.None? ==> forall i :: 0 <= i < |r| ==> !IsUpper(r[i])
  {
    if c.tableName.None? then Lower(c.className) else c.tableName.value
  }

  /** Everything of a record key that comes before the primary-key value. */
  function KeyStem(c: ModelConfig): string {
    var prefix := if Prefix(c) != "" then Prefix(c) + Separator(c) else "";
    prefix + TableName(c) + Separator(c)
  }

  /** `__get_primary_key`: the key of the hash that stores one record. */
  function RecordKey(c: ModelConfig, primaryKey: string): string {
    KeyStem(c) + primaryKey
  }

  /** `get_table_index_key`: the key of the set indexing every record key of the type. */
  function IndexKey(c: ModelConfig): string {
    TableName(c) + Separator(c) + "__index"
  }

  /** The persisted key layout, `{p}{s}{t}{s}{k}` with a prefix and `{t}{s}{k}` without. */
  lemma RecordKeyFormat(c: ModelConfig, k: string)
    ensures Prefix(c) != "" ==>
      RecordKey(c, k) == Prefix(c) + Separator(c) + TableName(c) + Separator(c) + k
    ensures Prefix(c) == "" ==> RecordKey(c, k) == TableName(c) + Separator(c) + k
  {
  }

  /** For one record type, distinct primary keys give distinct record keys. */
  lemma RecordKeyInjective(c: ModelConfig, k1: string, k2: string)
    ensures RecordKey(c, k1) == RecordKey(c, k2) <==> k1 == k2
  {
    var stem := KeyStem(c);
    if RecordKey(c, k1) == RecordKey(c, k2) {
      assert k1 == RecordKey(c, k1)[|stem|..];
      assert k2 == RecordKey(c, k2)[|stem|..];
    }
  }

  /** A record key starts with the stem, so it can be traced back to its primary key. */
  lemma RecordKeyRecoversPrimaryKey(c: ModelConfig, k: string)
    ensures |KeyStem(c)| <= |RecordKey(c, k)|
    ensures RecordKey(c, k)[..|KeyStem(c)|] == KeyStem(c)
    ensures RecordKey(c, k)[|KeyStem(c)|..] == k
  {
  }

  /** The index key does not depend on the prefix: it is the same with any prefix or none. */
  lemma IndexKeyIgnoresPrefix(c: ModelConfig, p: Option<string>)
    ensures IndexKey(c.(redisPrefix := p)) == IndexKey(c)
  {
  }

  /**
   * Without a prefix, the record whose primary key is "__index" shares its
   * key with the table index.
   */
  lemma IndexKeySharedWithRecordKey(c: ModelConfig)
    requires Prefix(c) == ""
    ensures RecordKey(c, "__index") == IndexKey(c)
  {
  }

  /** The key stems that the benchmark suite expects of its record classes. */
  lemma DefaultStem()
    ensures KeyStem(ModelConfig("Book", None, None, None)) == "book:"
  {
  }

  lemma PrefixStem()
    ensures KeyStem(ModelConfig("ModelWithPrefix", Some("prefix"), None, None)) == "prefix:modelwithprefix:"
  {
    PrefixConfigLower();
  }

  /** Lower-casing the names of a type that declares only a prefix. */
  lemma PrefixConfigLower()
    ensures Lower("ModelWithPrefix") == "modelwithprefix" && Lower("prefix") == "prefix"
  {
  }

  /** Lower-casing the names of a type that declares only a separator. */
  lemma SeparatorConfigLower()
    ensures Lower("ModelWithSeparator") == "modelwithseparator" && Lower("!!") == "!!"
  {
  }

  lemma SeparatorStem()
    ensures KeyStem(ModelConfig("ModelWithSeparator", None, Some("!!"), None)) == "modelwithseparator!!"
  {
    SeparatorConfigLower();
  }

  lemma TableNameStem()
    ensures KeyStem(ModelConfig("ModelWithTableName", None, None, Some("tablename"))) == "tablename:"
  {
  }

  lemma FullCustomStem()
    ensures KeyStem(ModelConfig("ModelWithFullCustomKey", Some("prefix"), Some("!!"), Some("custom"))) == "prefix!!custom!!"
  {
  }
}
